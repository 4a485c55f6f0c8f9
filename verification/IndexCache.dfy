/** The class BlockIndex of src/cache/BlockIndex.cpp: the in-memory index with its loops, against the functions of
    module YearMonthIndex. */
module IndexCache {
  import opened ByteCodec
  import opened IndexFormat
  import opened YearMonthIndex

  /** addIndicesForTransaction with a transaction entry: it adds the cursor first, and counts addresses in 16 bits. */
  function EntryAdded(st: State, call: Call): (State, Result<bool, IndexError>)
    requires call.data.DataBlock? && call.data.transactionNr >= 0
  {
    var b := call.data;
    var (st', r) := CursorAdded(Noted(st, b.transactionNr), b.transactionNr, b.fileCursor);
    if r.Err? then (st', r)
    else Added(st', call.(data := b.(addressIndices := b.addressIndices[..|b.addressIndices| % 0x1_0000])))
  }

  /** Both ways to add a transaction accept the same ones, and those they accept they file in the same way. */
  lemma BothWaysAgree(st: State, call: Call)
    requires call.data.DataBlock? && call.data.transactionNr >= 0 && |call.data.addressIndices| < 0x1_0000
    ensures Added(st, call).1.Ok? <==> EntryAdded(st, call).1.Ok?
    ensures Added(st, call).1.Ok? ==> Added(st, call) == EntryAdded(st, call)
  {
    hide Put, ListAt;
    var b := call.data;
    assert b.addressIndices[..|b.addressIndices| % 0x1_0000] == b.addressIndices;
    var nr, cursor := b.transactionNr, b.fileCursor;
    var (st', _) := CursorAdded(Noted(st, nr), nr, cursor);
    assert nr in st'.cursors ==> st'.cursors[nr := st'.cursors[nr]] == st'.cursors;
    assert Noted(Noted(st, nr), nr) == Noted(st, nr);
  }

  /** The cursor of an entry is one that changes the cursor map: it is not there yet, or only as 0, and it is allowed. */
  predicate TakesCursor(st: State, nr: nat, cursor: int) {
    if nr in st.cursors then st.cursors[nr] == 0 && cursor > 0 else cursor > 0 || (cursor == 0 && nr <= Noted(st, nr).min)
  }

  /** The plain way leaves the cursors of a refused transaction alone. The way for entries does so if and only if the map
      would not have taken the cursor: otherwise the cursor stays behind without an entry. */
  lemma RefusedLeavesCursorExactly(st: State, call: Call)
    requires call.data.DataBlock? && call.data.transactionNr >= 0
    ensures Added(st, call).1.Err? ==> Added(st, call).0.cursors == st.cursors
    ensures var nr, cursor := call.data.transactionNr, call.data.fileCursor;
            var (st', r) := EntryAdded(st, call);
            r.Err? ==>
              (st'.cursors == st.cursors <==> !TakesCursor(st, nr, cursor)) &&
              (TakesCursor(st, nr, cursor) ==> st'.cursors == st.cursors[nr := cursor])
  {
    hide Put, ListAt;
    var nr := call.data.transactionNr;
    assert nr in st.cursors ==> st.cursors[nr := st.cursors[nr]] == st.cursors;
  }

  class BlockIndex {
    const lib: Library
    var years: Years
    var cursors: map<nat, int>
    var max: nat
    var min: nat

    function St(): State
      reads this
    {
      State(years, cursors, max, min)
    }

    constructor (lib: Library)
      ensures St() == EMPTY && this.lib == lib
    {
      this.lib := lib;
      years, cursors, max, min := map[], map[], 0, 0;
    }

    method NoteNumber(nr: nat)
      modifies this
      ensures St() == Noted(old(St()), nr)
    {
      if nr > max { max := nr; }
      if min == 0 || nr < min { min := nr; }
    }

    method AddFileCursorForTransaction(nr: nat, cursor: int) returns (r: Result<bool, IndexError>)
      modifies this
      ensures (St(), r) == CursorAdded(old(St()), nr, cursor)
    {
      if cursor < 0 { return Ok(false); }
      if cursor == 0 && nr > min { return Err(InvalidFileCursor); }
      if nr !in cursors {
        cursors := cursors[nr := cursor];
        return Ok(true);
      } else if cursors[nr] == 0 {
        cursors := cursors[nr := cursor];
        return Ok(true);
      }
      return Ok(false);
    }

    method AddIndicesForTransaction(call: Call) returns (r: Result<bool, IndexError>)
      requires call.data.DataBlock? && call.data.transactionNr >= 0
      modifies this
      ensures (St(), r) == Added(old(St()), call)
    {
      var b := call.data;
      var y, m := call.year, call.month;
      NoteNumber(b.transactionNr);
      if y !in years { years := years[y := map[]]; }
      if m !in years[y] { years := years[y := years[y][m := []]]; }
      assert years == Put(old(years), y, m, ListAt(old(years), y, m)) by { Touched(old(years), y, m); }
      if |b.addressIndices| > 256 { return Err(TooManyAddresses); }
      var list := years[y][m];
      if list != [] && list[|list| - 1].transactionNr >= b.transactionNr { return Err(NotAscending); }
      PutTwice(old(years), y, m, list, list + [EntryOf(b)]);
      years := years[y := years[y][m := list + [EntryOf(b)]]];
      r := AddFileCursorForTransaction(b.transactionNr, b.fileCursor);
      return if r.Err? then r else Ok(true);
    }

    method AddIndicesForEntry(call: Call) returns (r: Result<bool, IndexError>)
      requires call.data.DataBlock? && call.data.transactionNr >= 0
      modifies this
      ensures (St(), r) == EntryAdded(old(St()), call)
    {
      var b := call.data;
      NoteNumber(b.transactionNr);
      if b.fileCursor >= 0 {
        r := AddFileCursorForTransaction(b.transactionNr, b.fileCursor);
        if r.Err? { return r; }
      }
      r := AddIndicesForTransaction(call.(data := b.(addressIndices := b.addressIndices[..|b.addressIndices| % 0x1_0000])));
    }

    /** None stands for an unknown number. */
    method GetFileCursorForTransactionNr(nr: nat) returns (cursor: Option<int>)
      ensures cursor == if nr in cursors then Some(cursors[nr]) else None
    {
      if nr in cursors { return Some(cursors[nr]); }
      return None;
    }

    /** The queue of records for a file; None if there is nothing to save. An entry without cursor is an exception. */
    method Serialize() returns (r: Result<Option<BlockIndexFile>, IndexError>)
      requires YearsFit(lib, cursors, years)
      ensures St() == EMPTY ==> r == Ok(None)
      ensures St() != EMPTY ==> (r == Err(MissingFileCursor) <==> !YearsHaveCursors(cursors, years))
      ensures St() != EMPTY && YearsHaveCursors(cursors, years) ==>
                r.Ok? && r.value.Some? && fresh(r.value.value) && r.value.value.lib == lib &&
                r.value.value.Exact() && r.value.value.dataBlocks == Blocks(St())
    {
      hide YearBlocks, YearsFit, YearsHaveCursors;
      if years == map[] && cursors == map[] && max == 0 && min == 0 { return Ok(None); }
      var file := new BlockIndexFile(lib);
      var ok := AddYears(file, cursors, years);
      return if ok then Ok(Some(file)) else Err(MissingFileCursor);
    }

    /** The new content of the index file; None if it is not written. */
    method WriteIntoFile() returns (r: Result<Option<seq<byte>>, IndexError>)
      requires YearsFit(lib, cursors, years)
      ensures St() == EMPTY ==> r == Ok(None)
      ensures St() != EMPTY ==> (r == Err(MissingFileCursor) <==> !YearsHaveCursors(cursors, years))
      ensures St() != EMPTY && YearsHaveCursors(cursors, years) ==>
                AllStorable(Blocks(St())) && r == Ok(Some(FileOf(lib, Blocks(St()))))
    {
      hide Blocks, YearsFit, YearsHaveCursors, FileOf;
      var file := Serialize();
      match file
      case Err(e) => return Err(e);
      case Ok(None) => return Ok(None);
      case Ok(Some(f)) =>
        var content := f.WriteToFile();
        return Ok(Some(content.value));
    }

    method LoadFromFile(content: seq<byte>) returns (r: Result<bool, IndexError>)
      modifies this
      ensures (St(), r) == LoadedFile(old(St()), lib, content)
    {
      hide ParseFile, ParseFrom, Added, DataCalls;
      var file := new BlockIndexFile(lib);
      var reader, result := file.ReadFromFile(content);
      var calls := reader.calls;
      assert DataCalls(calls) by { ParsedFile(lib, content); }
      r := Ok(true);
      for i := 0 to |calls|
        invariant (St(), r) == LoadedUpTo(old(St()), calls, i) && r.Ok?
      {
        NthIsData(calls, i);
        r := AddIndicesForTransaction(calls[i]);
        if r.Err? {
          StaysFailed(old(St()), calls, i + 1, |calls|);
          return r;
        }
      }
      match result
      case Ok(found) => return Ok(found);
      case Err(e) => return Err(FileError(e));
    }

    /** An exception while writing leaves the index as it is. */
    method Exit() returns (r: Result<Option<seq<byte>>, IndexError>)
      requires YearsFit(lib, cursors, years)
      modifies this
      ensures old(St() == EMPTY) ==> r == Ok(None)
      ensures old(St() != EMPTY) ==> (r == Err(MissingFileCursor) <==> !YearsHaveCursors(old(cursors), old(years)))
      ensures old(St() != EMPTY) && YearsHaveCursors(old(cursors), old(years)) ==>
                AllStorable(Blocks(old(St()))) && r == Ok(Some(FileOf(lib, Blocks(old(St())))))
      ensures St() == if r.Ok? then EMPTY else old(St())
    {
      hide Blocks, YearsFit, YearsHaveCursors, FileOf;
      r := WriteIntoFile();
      if r.Err? { return r; }
      years, cursors, max, min := map[], map[], 0, 0;
    }
  }

  lemma Touched(years: Years, y: Period, m: Period)
    ensures var withYear := if y in years then years else years[y := map[]];
            Put(years, y, m, ListAt(years, y, m)) ==
              if m in withYear[y] then withYear else withYear[y := withYear[y][m := []]]
  {
    if y in years && m in years[y] {
      assert years[y][m := years[y][m]] == years[y];
      assert years[y := years[y]] == years;
    }
  }

  lemma NthIsData(calls: seq<Call>, i: nat)
    requires DataCalls(calls) && i < |calls|
    ensures calls[i].data.DataBlock? && calls[i].data.transactionNr >= 0
  {}

  lemma {:induction false} StaysFailed(st: State, calls: seq<Call>, k: nat, n: nat)
    requires DataCalls(calls) && k <= n <= |calls| && LoadedUpTo(st, calls, k).1.Err?
    ensures LoadedUpTo(st, calls, n) == LoadedUpTo(st, calls, k)
  {
    if k < n { StaysFailed(st, calls, k, n - 1); }
  }

  method AddEntries(file: BlockIndexFile, cursors: map<nat, int>, list: seq<Entry>) returns (ok: bool)
    requires file.Exact() && ListFits(file.lib, cursors, list)
    modifies file
    ensures ok <==> ListHasCursors(cursors, list)
    ensures file.Exact() && (ok ==> file.dataBlocks == old(file.dataBlocks) + EntryBlocks(cursors, list, |list|))
  {
    hide ListFits, Storable, StorableEntry;
    ghost var before := file.dataBlocks;
    assert before + [] == before;
    for i := 0 to |list|
      invariant file.Exact() && ListHasCursors(cursors, list[..i])
      invariant ListHasCursors(cursors, list) ==> file.dataBlocks == before + EntryBlocks(cursors, list, i)
    {
      if list[i].transactionNr !in cursors { return false; }
      FittingIsStorable(file.lib, cursors, list, i);
      file.AddBlock(BlockOf(cursors, list[i]));
    }
    assert list[..|list|] == list;
    return true;
  }

  lemma FittingIsStorable(lib: Library, cursors: map<nat, int>, list: seq<Entry>, i: nat)
    requires ListFits(lib, cursors, list) && i < |list| && list[i].transactionNr in cursors
    ensures Storable(BlockOf(cursors, list[i]))
  {
    assert EntryFits(lib, cursors, list[i]);
  }

  ghost predicate MonthsHaveCursors(cursors: map<nat, int>, months: map<Period, seq<Entry>>) {
    forall m :: m in months ==> ListHasCursors(cursors, months[m])
  }

  method AddMonth(file: BlockIndexFile, cursors: map<nat, int>, month: Period, list: seq<Entry>) returns (ok: bool)
    requires file.Exact() && 0 <= month < 0x100 && ListFits(file.lib, cursors, list)
    modifies file
    ensures ok <==> ListHasCursors(cursors, list)
    ensures file.Exact()
    ensures ok ==> file.dataBlocks == old(file.dataBlocks) + [MonthBlock(month)] + EntryBlocks(cursors, list, |list|)
  {
    hide ListHasCursors, ListFits, EntryBlocks;
    file.AddBlock(MonthBlock(month));
    ok := AddEntries(file, cursors, list);
  }

  lemma Regrouped(a: seq<Block>, b: seq<Block>, c: seq<Block>, d: seq<Block>)
    ensures a + b + c + d == a + (b + c + d)
  {}

  method AddMonths(file: BlockIndexFile, cursors: map<nat, int>, months: map<Period, seq<Entry>>) returns (ok: bool)
    requires file.Exact() && forall m :: m in months ==> 0 <= m < 0x100 && ListFits(file.lib, cursors, months[m])
    modifies file
    ensures ok <==> MonthsHaveCursors(cursors, months)
    ensures file.Exact()
    ensures ok ==> var keys := Ascending(months.Keys);
                   file.dataBlocks == old(file.dataBlocks) + MonthBlocks(cursors, months, keys, |keys|)
  {
    hide ListHasCursors, ListFits, EntryBlocks, Ascending, BlockIndexFile.Exact;
    ghost var before := file.dataBlocks;
    var keys := Ascending(months.Keys);
    assert before + [] == before;
    for i := 0 to |keys|
      invariant file.Exact() && forall k :: 0 <= k < i ==> ListHasCursors(cursors, months[keys[k]])
      invariant MonthsHaveCursors(cursors, months) ==> file.dataBlocks == before + MonthBlocks(cursors, months, keys, i)
    {
      var month := keys[i];
      assert ListFits(file.lib, cursors, months[month]);
      ok := AddMonth(file, cursors, month, months[month]);
      if !ok { return false; }
      if MonthsHaveCursors(cursors, months) {
        Regrouped(before, MonthBlocks(cursors, months, keys, i), [MonthBlock(month)],
                  EntryBlocks(cursors, months[month], |months[month]|));
      }
    }
    return true;
  }

  method AddYears(file: BlockIndexFile, cursors: map<nat, int>, years: Years) returns (ok: bool)
    requires file.Exact() && file.dataBlocks == [] && YearsFit(file.lib, cursors, years)
    modifies file
    ensures ok <==> YearsHaveCursors(cursors, years)
    ensures file.Exact()
    ensures ok ==> var keys := Ascending(years.Keys); file.dataBlocks == YearBlocks(cursors, years, keys, |keys|)
  {
    hide ListHasCursors, ListFits, MonthBlocks, Ascending;
    var keys := Ascending(years.Keys);
    for i := 0 to |keys|
      invariant file.Exact() && forall k :: 0 <= k < i ==> MonthsHaveCursors(cursors, years[keys[k]])
      invariant YearsHaveCursors(cursors, years) ==> file.dataBlocks == YearBlocks(cursors, years, keys, i)
    {
      var year := keys[i];
      file.AddBlock(YearBlock(year));
      ok := AddMonths(file, cursors, years[year]);
      if !ok { return false; }
    }
    return true;
  }
}
