/** When the index of a block can be saved, and that a block reopened from its two files is the block that was saved. */
module SavedBlock {
  import opened ByteCodec
  import opened YearMonthIndex
  import opened WriteTasks
  import opened WriteBehind
  import IndexFormat
  import IndexCache
  import BlockFile
  import LinearSearch
  import D = Dictionary

  /** File cursors are 32-bit. */
  predicate CursorsFit(lines: seq<BlockFile.Line>) {
    |BlockFile.Log(lines)| < 0x8000_0000
  }

  lemma StoredCursorsFit(w: World, v: View, nr: nat)
    requires Consistent(w, v) && CursorsFit(v.lines) && nr in v.index.cursors
    ensures 0 <= v.index.cursors[nr] < 0x8000_0000 && (v.index.cursors[nr] == 0 ==> nr == v.first)
  {
    hide Indexed, Known, Chained, Opened, Within;
    BlockFile.LogPrefix(v.lines, nr - v.first, |v.lines|);
    if nr > v.first { CursorIsPositive(v.lines, nr - v.first); }
  }

  lemma EntriesAreStorable(w: World, v: View)
    requires Consistent(w, v) && CursorsFit(v.lines)
    ensures YearsFit(w.index, v.index.cursors, v.index.years)
  {
    hide Known, Chained, Opened, Within, Stored, Listed, CursorsFit;
    var years: Years, cursors := v.index.years, v.index.cursors;
    forall y: IndexFormat.Period, m: IndexFormat.Period, i: nat | y in years && m in years[y] && i < |years[y][m]|
      ensures EntryFits(w.index, cursors, years[y][m][i])
    {
      assert ListAt(years, y, m) == years[y][m];
      assert GoodEntry(w.index, ListAt(years, y, m)[i]);
      if years[y][m][i].transactionNr in cursors { StoredCursorsFit(w, v, years[y][m][i].transactionNr); }
    }
  }

  /** The index can be saved exactly if no transaction is waiting to be written: every other one lacks its cursor. */
  lemma SavableExactly(w: World, v: View)
    requires Consistent(w, v)
    ensures YearsHaveCursors(v.index.cursors, v.index.years) <==> |v.lines| == v.next - v.first
  {
    hide Chained, Opened, Within, Sound, Tidy, RealMonths, BlockFile.Cursor;
    var years: Years, cursors := v.index.years, v.index.cursors;
    if |v.lines| == v.next - v.first {
      forall y: IndexFormat.Period, m: IndexFormat.Period, i: nat | y in years && m in years[y] && i < |years[y][m]|
        ensures years[y][m][i].transactionNr in cursors
      {
        assert ListAt(years, y, m)[i].transactionNr in v.pushed;
      }
    } else {
      MoreThanLines(w, v);
      var nr := v.first + |v.lines|;
      assert nr in v.pushed && nr !in cursors;
      assert Listed(years, nr);
      var y, m, i :| 0 <= i < |ListAt(years, y, m)| && ListAt(years, y, m)[i].transactionNr == nr;
      assert !ListHasCursors(cursors, years[y][m]);
    }
  }

  lemma MoreThanLines(w: World, v: View)
    requires Consistent(w, v)
    ensures v.first + |v.lines| <= v.next
  {
    hide Indexed, Known, Within, Stored;
    BoundsAscend(v.pushed, v.waiting, v.bounds, |v.waiting|);
  }

  lemma {:induction false} BoundsAscend(pushed: Transactions, waiting: seq<Transactions>, bounds: seq<nat>, n: nat)
    requires Chained(pushed, waiting, bounds) && n <= |waiting|
    ensures bounds[0] <= bounds[n]
  {
    if n > 0 { BoundsAscend(pushed, waiting, bounds, n - 1); }
  }

  // ---------------------------------------------------------------- everything written

  lemma {:induction false} ItemIsSelected(items: seq<Item>, n: nat, i: nat)
    requires i < n <= |items|
    ensures items[i].entry in Select(items, n, items[i].year, items[i].month)
  {
    if i < n - 1 { ItemIsSelected(items, n - 1, i); }
  }

  lemma {:induction false} NumberHasItem(items: seq<Item>, n: nat, nr: nat) returns (i: nat)
    requires n <= |items| && nr in Numbers(items, n)
    ensures i < n && items[i].entry.transactionNr == nr
  {
    if items[n - 1].entry.transactionNr == nr { i := n - 1; } else { i := NumberHasItem(items, n - 1, nr); }
  }

  /** The numbers of the items are those of the entries of the months. */
  lemma FlatNumbers(years: Years, nr: nat)
    ensures nr in Numbers(Flat(years), |Flat(years)|) <==> Listed(years, nr)
  {
    hide Flat, ListAt;
    var items := Flat(years);
    if nr in Numbers(items, |items|) {
      var i := NumberHasItem(items, |items|, nr);
      ItemIsSelected(items, |items|, i);
      SelectFlat(years, items[i].year, items[i].month);
      var list := ListAt(years, items[i].year, items[i].month);
      var k :| 0 <= k < |list| && list[k] == items[i].entry;
      assert list[k].transactionNr == nr;
    }
    if Listed(years, nr) {
      var y, m, k :| 0 <= k < |ListAt(years, y, m)| && ListAt(years, y, m)[k].transactionNr == nr;
      SelectFlat(years, y, m);
      SelectedIsItem(items, |items|, y, m, k);
      var i :| 0 <= i < |items| && items[i].entry == ListAt(years, y, m)[k];
      NumberOfItem(items, i, |items|);
    }
  }

  lemma ItemsAreGood(w: World, v: View)
    requires Indexed(w, v.index, v.pushed, v.first, v.next)
    ensures GoodItems(w.index, Flat(v.index.years))
  {
    hide Flat, Tidy, RealMonths, Listed, GoodEntry, ListAt;
    var items := Flat(v.index.years);
    forall i | 0 <= i < |items| ensures GoodEntry(w.index, items[i].entry) {
      ItemIsSelected(items, |items|, i);
      SelectFlat(v.index.years, items[i].year, items[i].month);
      var list := ListAt(v.index.years, items[i].year, items[i].month);
      var k :| 0 <= k < |list| && list[k] == items[i].entry;
    }
  }

  lemma ListedIsPushed(w: World, v: View, nr: nat)
    requires Indexed(w, v.index, v.pushed, v.first, v.next)
    ensures Listed(v.index.years, nr) <==> nr in v.pushed
  {
    hide Tidy, RealMonths, GoodEntry, ListAt;
    if Listed(v.index.years, nr) {
      var y, m, k :| 0 <= k < |ListAt(v.index.years, y, m)| && ListAt(v.index.years, y, m)[k].transactionNr == nr;
      assert ListAt(v.index.years, y, m)[k].transactionNr in v.pushed;
    }
  }

  lemma NumbersArePushed(w: World, v: View)
    requires Consistent(w, v) && |v.lines| == v.next - v.first
    ensures var items := Flat(v.index.years);
            Numbers(items, |items|) == v.index.cursors.Keys && NumbersUpTo(v.index, items, |items|, v.index)
  {
    hide Flat, Tidy, RealMonths, EntriesFrom, Listed, Chained, Opened, Within, Sound, Numbers, BlockFile.Cursor;
    var items := Flat(v.index.years);
    var numbers := Numbers(items, |items|);
    forall nr: nat ensures nr in numbers <==> nr in v.index.cursors.Keys {
      FlatNumbers(v.index.years, nr);
      ListedIsPushed(w, v, nr);
    }
    assert numbers == v.index.cursors.Keys;
    assert v.first < v.next ==> v.first in v.index.cursors && v.next - 1 in v.index.cursors;
    assert v.first == v.next ==> numbers == {};
  }

  /** A block with nothing left to write has a well-formed index. */
  lemma WrittenIsWellFormed(w: World, v: View)
    requires Consistent(w, v) && CursorsFit(v.lines) && |v.lines| == v.next - v.first
    ensures WellFormed(w.index, v.index) && LinearSearch.Searchable(v.index)
  {
    hide Flat, Numbers, Chained, Opened, Within, Sound, GoodEntry, EntriesFrom, Listed, BlockFile.Cursor;
    var items := Flat(v.index.years);
    ItemsAreGood(w, v);
    NumbersArePushed(w, v);
    forall i | 0 <= i < |items| ensures items[i].entry.transactionNr in v.index.cursors { NumberOfItem(items, i, |items|); }
    forall nr | nr in v.index.cursors
      ensures 0 <= v.index.cursors[nr] < 0x8000_0000 && (v.index.cursors[nr] == 0 ==> nr == v.index.min)
    {
      StoredCursorsFit(w, v, nr);
    }
    LinearSearch.WellFormedIsSearchable(w.index, v.index);
  }

  /** The index file of a block with nothing left to write, loaded into an empty index, gives a block that knows the same
      transactions. */
  lemma ReopenedIsSaved(w: World, v: View)
    requires Consistent(w, v) && CursorsFit(v.lines) && v.waiting == [] && v.open == None
    ensures YearsHaveCursors(v.index.cursors, v.index.years) && IndexFormat.AllStorable(Blocks(v.index))
    ensures var (index, r) := LoadedFile(EMPTY, w.index, IndexFormat.FileOf(w.index, Blocks(v.index)));
            r == Ok(true) && Consistent(w, View(v.first, v.next, v.pushed, map[], None, [], [v.next], v.lines, index))
  {
    hide Indexed, Known, Stored, WellFormed, Blocks, LoadedFile, IndexFormat.FileOf, CursorsFit, YearsHaveCursors;
    assert |v.lines| == v.next - v.first && v.bounds == [v.next];
    WrittenIsWellFormed(w, v);
    ReloadRestoresIndex(w.index, v.index);
  }

  /** A block reopened with an index: nothing is waiting, and what it counts as pushed is open. */
  function Reopened(first: nat, next: nat, pushed: Transactions, lines: seq<BlockFile.Line>, index: State): View {
    View(first, next, pushed, map[], None, [], [next], lines, index)
  }

  lemma KnowsEveryLine(w: World, first: nat, next: nat, pushed: Transactions, lines: seq<BlockFile.Line>, v: View)
    requires Consistent(w, v) && Consistent(w, Reopened(first, next, pushed, lines, v.index)) && |lines| >= |v.lines|
    ensures |lines| == |v.lines|
  {
    hide Known, Chained, Opened, Within, Indexed, BlockFile.Cursor;
    assert |lines| > 0 ==> first in v.index.cursors && first + |lines| - 1 in v.index.cursors;
  }

  /** An index file that was saved before the last append is loaded as it is: the reopened block knows its transactions if
      and only if the saved index knows as many lines as the block file holds. */
  lemma ReopenedExactly(w: World, v: View, more: seq<BlockFile.Line>)
    requires Consistent(w, v) && CursorsFit(v.lines) && v.waiting == [] && v.open == None
    ensures YearsHaveCursors(v.index.cursors, v.index.years) && IndexFormat.AllStorable(Blocks(v.index))
    ensures var (index, r) := LoadedFile(EMPTY, w.index, IndexFormat.FileOf(w.index, Blocks(v.index)));
            r == Ok(true) &&
            ((exists first, next, pushed :: Consistent(w, Reopened(first, next, pushed, v.lines + more, index))) <==> more == [])
  {
    hide Consistent, WellFormed, Blocks, LoadedFile, IndexFormat.FileOf, CursorsFit, YearsHaveCursors;
    AllIsWritten(w, v);
    ReopenedIsSaved(w, v);
    WrittenIsWellFormed(w, v);
    ReloadRestoresIndex(w.index, v.index);
    if more == [] {
      assert v.lines + more == v.lines;
      assert Consistent(w, Reopened(v.first, v.next, v.pushed, v.lines + more, v.index));
    }
    forall first, next, pushed | Consistent(w, Reopened(first, next, pushed, v.lines + more, v.index)) ensures more == [] {
      KnowsEveryLine(w, first, next, pushed, v.lines + more, v);
    }
  }

  // ---------------------------------------------------------------- rebuilding the index from the lines

  /** A transaction read from the file, as the index takes it. */
  function ReadAs(t: Transaction, cursor: nat): IndexFormat.Call {
    var call := FiledAs(t);
    call.(data := call.data.(fileCursor := cursor))
  }

  datatype InitError = NumbersDescend | NotIndexed(e: IndexError)

  /** The rest of init: the index after the first n lines of a block file, and the number of the last one. */
  function RebuiltUpTo(w: World, pairs: seq<(nat, BlockFile.Line)>, n: nat): (State, nat, Result<bool, InitError>)
    requires n <= |pairs|
  {
    if n == 0 then (EMPTY, 0, Ok(true)) else
      var (st, prev, r) := RebuiltUpTo(w, pairs, n - 1);
      var t := w.deserialize(pairs[n - 1].1);
      if r.Err? then (st, prev, r)
      else if t.nr <= prev then (st, prev, Err(NumbersDescend))
      else
        var (st', added) := IndexCache.EntryAdded(st, ReadAs(t, pairs[n - 1].0));
        (st', t.nr, if added.Err? then Err(NotIndexed(added.error)) else Ok(true))
  }

  /** The index of the first n transactions of a block. */
  ghost predicate IndexOf(v: View, n: nat, st: State)
    requires n <= |v.lines|
  {
    st.years == FiledYears(v.pushed, v.first, v.first + n) &&
    (forall k :: k in st.cursors <==> v.first <= k < v.first + n) &&
    (forall k :: k in st.cursors ==> st.cursors[k] == BlockFile.Cursor(v.lines, k - v.first)) &&
    if n > 0 then st.min == v.first && st.max == v.first + n - 1 else st.min == st.max == 0
  }

  lemma {:induction false} FiledIsTidy(pushed: Transactions, first: nat, n: nat)
    requires forall k :: first <= k < n ==> k in pushed && pushed[k].nr == k
    ensures Tidy(FiledYears(pushed, first, n))
    ensures forall y, m, i :: 0 <= i < |ListAt(FiledYears(pushed, first, n), y, m)| ==>
              ListAt(FiledYears(pushed, first, n), y, m)[i].transactionNr < n
  {
    hide Put, ListAt, Tidy;
    if n > first {
      FiledIsTidy(pushed, first, n - 1);
      var years, t := FiledYears(pushed, first, n - 1), pushed[n - 1];
      var list := ListAt(years, t.year, t.month);
      MonthAscends(years, t.year, t.month);
      PutKeepsTidy(years, t.year, t.month, list + [EntryFor(t)]);
    } else {
      NothingIsTidy();
    }
  }

  lemma NothingIsTidy()
    ensures Tidy(map[]) && forall y, m :: ListAt(map[], y, m) == []
  {}

  lemma LineOfPushed(w: World, v: View, k: nat)
    requires Consistent(w, v) && k < |v.lines|
    ensures v.first + k in v.pushed && v.first >= 1 && Sound(w, v.pushed[v.first + k]) && v.pushed[v.first + k].nr == v.first + k
    ensures w.deserialize(v.lines[k]) == v.pushed[v.first + k]
  {
    hide Indexed, Chained, Opened, Within, BlockFile.Cursor;
    assert v.first + k in v.index.cursors;
  }

  /** The next transaction is added to the index of those before it. */
  lemma NextIsIndexed(w: World, v: View, n: nat, st: State)
    requires Consistent(w, v) && n < |v.lines| && IndexOf(v, n, st)
    ensures v.first + n in v.pushed
    ensures var (st', r) := IndexCache.EntryAdded(st, ReadAs(v.pushed[v.first + n], BlockFile.Cursor(v.lines, n)));
            r == Ok(true) && IndexOf(v, n + 1, st')
  {
    hide Consistent, Put, ListAt, Added, IndexCache.EntryAdded, Tidy, BlockFile.Cursor;
    LineOfPushed(w, v, n);
    PushedBefore(w, v, n);
    var t, cursor := v.pushed[v.first + n], BlockFile.Cursor(v.lines, n);
    var list := ListAt(st.years, t.year, t.month);
    FiledIsTidy(v.pushed, v.first, v.first + n);
    MonthAscends(st.years, t.year, t.month);
    if n > 0 { CursorIsPositive(v.lines, n); }
    var filed := Noted(st, t.nr).(years := Put(st.years, t.year, t.month, list + [EntryFor(t)]));
    CountableEntry(w, t, cursor);
    AddedIs(st, ReadAs(t, cursor), EntryFor(t), filed);
    IndexCache.BothWaysAgree(st, ReadAs(t, cursor));
  }

  lemma CountableEntry(w: World, t: Transaction, cursor: nat)
    requires Sound(w, t)
    ensures EntryOf(ReadAs(t, cursor).data) == EntryFor(t)
  {
    assert t.addressIndices[..|t.addressIndices| % 0x100] == t.addressIndices;
  }

  lemma PushedBefore(w: World, v: View, n: nat)
    requires Consistent(w, v) && n <= |v.lines|
    ensures forall k :: v.first <= k < v.first + n ==> k in v.pushed && v.pushed[k].nr == k
  {
    hide Indexed, Chained, Opened, Within, BlockFile.Cursor, Sound;
    MoreThanLines(w, v);
  }

  lemma {:induction false} RebuildsIndex(w: World, v: View, n: nat)
    requires Consistent(w, v) && n <= |v.lines|
    ensures var (st, prev, r) := RebuiltUpTo(w, BlockFile.CursorLines(v.lines), n);
            r == Ok(true) && IndexOf(v, n, st) && prev == if n == 0 then 0 else v.first + n - 1
  {
    hide Consistent, IndexOf, IndexCache.EntryAdded, BlockFile.Cursor;
    if n == 0 {
      NothingIndexed(v);
    } else {
      RebuildsIndex(w, v, n - 1);
      LineOfPushed(w, v, n - 1);
      NextIsIndexed(w, v, n - 1, RebuiltUpTo(w, BlockFile.CursorLines(v.lines), n - 1).0);
    }
  }

  lemma NothingIndexed(v: View)
    ensures IndexOf(v, 0, EMPTY)
  {}

  lemma RebuiltFromLines(w: World, v: View)
    requires Consistent(w, v) && v.waiting == [] && v.open == None
    ensures var (index, _, r) := RebuiltUpTo(w, BlockFile.CursorLines(v.lines), |v.lines|);
            index == v.index && r == Ok(true)
  {
    hide Consistent, IndexOf, RebuiltUpTo, BlockFile.CursorLines;
    AllIsWritten(w, v);
    RebuildsIndex(w, v, |v.lines|);
    WholeIndexIs(w, v, RebuiltUpTo(w, BlockFile.CursorLines(v.lines), |v.lines|).0);
  }

  lemma WholeIndexIs(w: World, v: View, st: State)
    requires Consistent(w, v) && v.first + |v.lines| == v.next && IndexOf(v, |v.lines|, st)
    ensures st == v.index
  {
    hide Known, Chained, Opened, Within, Tidy, RealMonths, EntriesFrom, Listed, FiledYears, BlockFile.Cursor;
    assert st.cursors.Keys == v.index.cursors.Keys;
    assert st.cursors == v.index.cursors;
  }

  lemma AllIsWritten(w: World, v: View)
    requires Consistent(w, v) && v.waiting == [] && v.open == None
    ensures v.first + |v.lines| == v.next
  {
    hide Known, Stored, Within, Indexed;
  }

  // ---------------------------------------------------------------- rebuilding with the dictionary

  /** What a line holds: a transaction that names its addresses. The dictionary gives them their indices. */
  datatype Source = Source(octet: D.Octets, deserialize: BlockFile.Line -> (Transaction, seq<string>))

  /** Asking the dictionary for the first n addresses. */
  function AskedFor(octet: D.Octets, dict: D.State, names: seq<string>, n: nat): (D.State, seq<nat>)
    requires n <= |names|
  {
    if n == 0 then (dict, []) else
      var (before, indices) := AskedFor(octet, dict, names, n - 1);
      var (after, index) := D.Asked(octet, before, names[n - 1]);
      (after, indices + [index])
  }

  /** A line as a transaction entry, with the indices of its addresses. */
  function EntryOfLine(source: Source, dict: D.State, line: BlockFile.Line): (D.State, Transaction) {
    var (t, names) := source.deserialize(line);
    var (dict', indices) := AskedFor(source.octet, dict, names, |names|);
    (dict', t.(addressIndices := indices))
  }

  /** The rest of init, asking the dictionary for every address of every line. */
  function RebuiltWith(source: Source, dict: D.State, pairs: seq<(nat, BlockFile.Line)>, n: nat):
    (D.State, State, nat, Result<bool, InitError>)
    requires n <= |pairs|
  {
    if n == 0 then (dict, EMPTY, 0, Ok(true)) else
      var (before, st, prev, r) := RebuiltWith(source, dict, pairs, n - 1);
      if r.Err? then (before, st, prev, r)
      else
        var (after, t) := EntryOfLine(source, before, pairs[n - 1].1);
        if t.nr <= prev then (after, st, prev, Err(NumbersDescend))
        else
          var (st', added) := IndexCache.EntryAdded(st, ReadAs(t, pairs[n - 1].0));
          (after, st', t.nr, if added.Err? then Err(NotIndexed(added.error)) else Ok(true))
  }

  /** The dictionary finds the addresses of a line under the indices that its transaction was pushed with. */
  ghost predicate FoundAs(source: Source, dict: D.State, line: BlockFile.Line, t: Transaction) {
    var (named, names) := source.deserialize(line);
    named.(addressIndices := t.addressIndices) == t && |names| == |t.addressIndices| &&
    forall i :: 0 <= i < |names| ==> D.Lookup(source.octet, dict, names[i]) == t.addressIndices[i] != 0
  }

  /** Asking leaves the dictionary as it is exactly if it finds all names, and then it answers with their indices. */
  lemma {:induction false} AskedForExactly(octet: D.Octets, dict: D.State, names: seq<string>, n: nat)
    requires n <= |names|
    ensures var (dict', indices) := AskedFor(octet, dict, names, n);
            |indices| == n && dict'.lastIndex >= dict.lastIndex &&
            (dict'.lastIndex == dict.lastIndex <==> forall i :: 0 <= i < n ==> D.Lookup(octet, dict, names[i]) != 0) &&
            (dict'.lastIndex == dict.lastIndex ==>
               dict' == dict && forall i :: 0 <= i < n ==> indices[i] == D.Lookup(octet, dict, names[i]))
  {
    hide D.Lookup;
    if n > 0 { AskedForExactly(octet, dict, names, n - 1); }
  }

  /** A line read again gives its transaction, and leaves the dictionary as it is, exactly if every address is found under
      its index. An address that shares its digest with another string is not found, and gets a new index. */
  lemma LineIsReadExactly(source: Source, dict: D.State, line: BlockFile.Line, t: Transaction)
    ensures EntryOfLine(source, dict, line) == (dict, t) <==> FoundAs(source, dict, line, t)
  {
    hide D.Lookup, AskedFor;
    var (named, names) := source.deserialize(line);
    AskedForExactly(source.octet, dict, names, |names|);
    var (dict', indices) := AskedFor(source.octet, dict, names, |names|);
    if FoundAs(source, dict, line, t) { assert indices == t.addressIndices; }
  }

  /** In a dictionary without collisions a name is found under the index that stands for it. */
  lemma BijectiveFinds(octet: D.Octets, dict: D.State, index: nat)
    requires D.Bijective(octet, dict) && index in dict.file
    ensures D.Lookup(octet, dict, dict.file[index]) == index != 0
  {}

  lemma {:induction false} RebuildsWith(w: World, source: Source, dict: D.State, pairs: seq<(nat, BlockFile.Line)>, n: nat)
    requires n <= |pairs| && forall i :: 0 <= i < |pairs| ==> FoundAs(source, dict, pairs[i].1, w.deserialize(pairs[i].1))
    ensures var (st, prev, r) := RebuiltUpTo(w, pairs, n); RebuiltWith(source, dict, pairs, n) == (dict, st, prev, r)
  {
    hide FoundAs, EntryOfLine, IndexCache.EntryAdded;
    if n > 0 {
      RebuildsWith(w, source, dict, pairs, n - 1);
      LineIsReadExactly(source, dict, pairs[n - 1].1, w.deserialize(pairs[n - 1].1));
    }
  }

  /** Without an index file, the block file of a block with nothing left to write gives the same index, with no exception, if
      the dictionary finds the addresses under the indices they were pushed with; the dictionary stays as it is. */
  lemma RebuiltIsSaved(w: World, v: View, source: Source, dict: D.State)
    requires Consistent(w, v) && v.waiting == [] && v.open == None
    requires forall nr :: nr in v.pushed ==> FoundAs(source, dict, v.pushed[nr].line, v.pushed[nr])
    ensures var (dict', index, _, r) := RebuiltWith(source, dict, BlockFile.CursorLines(v.lines), |v.lines|);
            dict' == dict && index == v.index && r == Ok(true)
  {
    hide Consistent, FoundAs, RebuiltWith, RebuiltUpTo;
    RebuiltFromLines(w, v);
    var pairs := BlockFile.CursorLines(v.lines);
    forall i | 0 <= i < |pairs| ensures FoundAs(source, dict, pairs[i].1, w.deserialize(pairs[i].1)) {
      LineOfPushed(w, v, i);
      PushedLine(w, v, i);
    }
    RebuildsWith(w, source, dict, pairs, |pairs|);
  }

  /** So it is with a dictionary without collisions that has the addresses under these indices. */
  lemma RebuiltWithBijective(w: World, v: View, source: Source, dict: D.State)
    requires Consistent(w, v) && v.waiting == [] && v.open == None && D.Bijective(source.octet, dict)
    requires forall nr :: nr in v.pushed ==> NamesIndices(source, dict, v.pushed[nr])
    ensures var (dict', index, _, r) := RebuiltWith(source, dict, BlockFile.CursorLines(v.lines), |v.lines|);
            dict' == dict && index == v.index && r == Ok(true)
  {
    hide Consistent, RebuiltWith, D.Bijective, D.Lookup;
    forall nr | nr in v.pushed ensures FoundAs(source, dict, v.pushed[nr].line, v.pushed[nr]) {
      var t := v.pushed[nr];
      forall i | 0 <= i < |t.addressIndices|
        ensures D.Lookup(source.octet, dict, dict.file[t.addressIndices[i] as nat]) == t.addressIndices[i] != 0
      {
        BijectiveFinds(source.octet, dict, t.addressIndices[i]);
      }
    }
    RebuiltIsSaved(w, v, source, dict);
  }

  ghost predicate NamesIndices(source: Source, dict: D.State, t: Transaction) {
    var (named, names) := source.deserialize(t.line);
    named.(addressIndices := t.addressIndices) == t && |names| == |t.addressIndices| &&
    forall i :: 0 <= i < |names| ==>
      t.addressIndices[i] >= 0 && t.addressIndices[i] as nat in dict.file && dict.file[t.addressIndices[i] as nat] == names[i]
  }

  lemma PushedLine(w: World, v: View, k: nat)
    requires Consistent(w, v) && k < |v.lines|
    ensures v.first + k in v.pushed && v.pushed[v.first + k].line == v.lines[k]
  {
    hide Indexed, Chained, Opened, Within, Known, BlockFile.Cursor;
    assert v.first + k in v.index.cursors;
  }
}
