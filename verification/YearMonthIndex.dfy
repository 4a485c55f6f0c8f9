/** The block index in memory, src/cache/BlockIndex.cpp: entries by year and month, file cursors by transaction number,
    and the way through the index file and back. */
module YearMonthIndex {
  import opened ByteCodec
  import opened IndexFormat

  datatype Entry = Entry(transactionNr: nat, addressIndices: seq<int>, coinCommunityIdIndex: int, transactionType: byte)

  /** An entry with the year and month it is filed under. */
  datatype Item = Item(year: Period, month: Period, entry: Entry)

  datatype IndexError = TooManyAddresses | NotAscending | InvalidFileCursor | MissingFileCursor | FileError(e: Error)

  type Years = map<Period, map<Period, seq<Entry>>>

  datatype State = State(years: Years, cursors: map<nat, int>, max: nat, min: nat)

  const EMPTY := State(map[], map[], 0, 0)

  // ---------------------------------------------------------------- adding

  function ListAt(years: Years, year: Period, month: Period): seq<Entry> {
    if year in years && month in years[year] then years[year][month] else []
  }

  function Put(years: Years, year: Period, month: Period, list: seq<Entry>): Years {
    years[year := (if year in years then years[year] else map[])[month := list]]
  }

  /** Keeping track of the highest and the lowest number; 0 stands for none. */
  function Noted(st: State, nr: nat): State {
    st.(max := if nr > st.max then nr else st.max, min := if st.min == 0 || nr < st.min then nr else st.min)
  }

  /** addFileCursorForTransaction: cursor 0 is only for the lowest number, and only a cursor of 0 is replaced. */
  function CursorAdded(st: State, nr: nat, cursor: int): (State, Result<bool, IndexError>) {
    if cursor < 0 then (st, Ok(false))
    else if cursor == 0 && nr > st.min then (st, Err(InvalidFileCursor))
    else if nr !in st.cursors || st.cursors[nr] == 0 then (st.(cursors := st.cursors[nr := cursor]), Ok(true))
    else (st, Ok(false))
  }

  function EntryOf(b: Block): Entry
    requires b.DataBlock? && b.transactionNr >= 0
  {
    Entry(b.transactionNr, b.addressIndices[..|b.addressIndices| % 0x100], b.coinCommunityIdIndex, b.transactionType)
  }

  /** addIndicesForTransaction with single values. An exception leaves behind what was done before it. */
  function Added(st: State, call: Call): (State, Result<bool, IndexError>)
    requires call.data.DataBlock? && call.data.transactionNr >= 0
  {
    var b := call.data;
    var list := ListAt(st.years, call.year, call.month);
    var touched := Noted(st, b.transactionNr).(years := Put(st.years, call.year, call.month, list));
    if |b.addressIndices| > 256 then (touched, Err(TooManyAddresses))
    else if list != [] && list[|list| - 1].transactionNr >= b.transactionNr then (touched, Err(NotAscending))
    else
      var filed := touched.(years := Put(st.years, call.year, call.month, list + [EntryOf(b)]));
      var (st', r) := CursorAdded(filed, b.transactionNr, b.fileCursor);
      (st', if r.Err? then r else Ok(true))
  }

  predicate DataCalls(calls: seq<Call>) {
    forall i :: 0 <= i < |calls| ==> calls[i].data.DataBlock? && calls[i].data.transactionNr >= 0
  }

  /** The index after the first n calls of the reader, or up to the first exception. */
  function LoadedUpTo(st: State, calls: seq<Call>, n: nat): (State, Result<bool, IndexError>)
    requires DataCalls(calls) && n <= |calls|
  {
    if n == 0 then (st, Ok(true)) else
      var (st', r) := LoadedUpTo(st, calls, n - 1);
      if r.Err? then (st', r) else Added(st', calls[n - 1])
  }

  /** A transaction is taken in exactly if it has at most 256 addresses, its number is higher than every one of its month, and
      its cursor is not 0, unless no number is lower. It then stands at the end of its month, with its own fields, and nothing
      else has changed in the index but the bounds and its cursor. */
  lemma AddedExactly(st: State, call: Call)
    requires call.data.DataBlock? && call.data.transactionNr >= 0
    requires AscendingNumbers(ListAt(st.years, call.year, call.month))
    ensures var nr, list := call.data.transactionNr, ListAt(st.years, call.year, call.month);
            var (st', r) := Added(st, call);
            (r.Ok? <==> |call.data.addressIndices| <= 256 && (forall i :: 0 <= i < |list| ==> list[i].transactionNr < nr) &&
                        (call.data.fileCursor == 0 ==> st.min == 0 || nr <= st.min)) &&
            (r.Ok? && |call.data.addressIndices| < 256 ==>
               (forall y, m :: ListAt(st'.years, y, m) ==
                  if y == call.year && m == call.month
                  then list + [Entry(nr, call.data.addressIndices, call.data.coinCommunityIdIndex, call.data.transactionType)]
                  else ListAt(st.years, y, m)) &&
               st'.max >= nr && st'.max >= st.max && st'.max in {st.max, nr} &&
               (if st.min == 0 then st'.min == nr else st'.min <= nr && st'.min <= st.min && st'.min in {st.min, nr}))
  {
    var b := call.data;
    assert |b.addressIndices| < 256 ==> b.addressIndices[..|b.addressIndices| % 0x100] == b.addressIndices;
  }

  /** A cursor, once above 0, stays; a positive one gets in if there is none above 0; a negative one is ignored; and 0 is an
      exception for any number but the lowest. */
  lemma CursorStays(st: State, nr: nat, cursor: int, other: nat)
    ensures var (st', r) := CursorAdded(st, nr, cursor);
            (other in st.cursors && (other != nr || st.cursors[nr] != 0) ==>
               other in st'.cursors && st'.cursors[other] == st.cursors[other]) &&
            (other != nr ==> (other in st'.cursors <==> other in st.cursors)) &&
            (cursor > 0 && (nr !in st.cursors || st.cursors[nr] == 0) ==> nr in st'.cursors && st'.cursors[nr] == cursor) &&
            (cursor < 0 ==> st' == st && r == Ok(false)) && (r.Err? <==> cursor == 0 && nr > st.min)
  {}

  // ---------------------------------------------------------------- ascending keys of the maps

  function Least(s: set<Period>): (x: Period)
    requires s != {}
    ensures x in s && forall y :: y in s ==> x <= y
  {
    assert exists x :: x in s && forall y :: y in s ==> x <= y by { var x := LeastExists(s); }
    var x :| x in s && forall y :: y in s ==> x <= y;
    x
  }

  lemma {:induction false} LeastExists(s: set<Period>) returns (x: Period)
    requires s != {}
    ensures x in s && forall y :: y in s ==> x <= y
  {
    var a :| a in s;
    x := a;
    if s - {a} != {} {
      var z := LeastExists(s - {a});
      x := if a < z then a else z;
    }
    forall y | y in s ensures x <= y {
      assert y == a || y in s - {a};
    }
  }

  /** The keys of a std::map in the order of iteration. */
  function Ascending(s: set<Period>): (keys: seq<Period>)
    ensures forall x :: x in keys <==> x in s
    ensures forall i, j :: 0 <= i < j < |keys| ==> keys[i] < keys[j]
  {
    if s == {} then [] else
      var x := Least(s);
      var rest := Ascending(s - {x});
      assert forall y :: y in [x] + rest <==> y == x || y in rest;
      [x] + rest
  }

  // ---------------------------------------------------------------- the index as one list

  function ItemsOf(year: Period, month: Period, list: seq<Entry>): (items: seq<Item>)
    ensures |items| == |list|
  {
    seq(|list|, i requires 0 <= i < |list| => Item(year, month, list[i]))
  }

  /** The items of the first n months of a year. */
  function MonthItems(year: Period, months: map<Period, seq<Entry>>, keys: seq<Period>, n: nat): seq<Item>
    requires n <= |keys| && forall i :: 0 <= i < |keys| ==> keys[i] in months
  {
    if n == 0 then [] else MonthItems(year, months, keys, n - 1) + ItemsOf(year, keys[n - 1], months[keys[n - 1]])
  }

  function YearItems(years: Years, keys: seq<Period>, n: nat): seq<Item>
    requires n <= |keys| && forall i :: 0 <= i < |keys| ==> keys[i] in years
  {
    if n == 0 then [] else
      var months := Ascending(years[keys[n - 1]].Keys);
      YearItems(years, keys, n - 1) + MonthItems(keys[n - 1], years[keys[n - 1]], months, |months|)
  }

  /** All entries, oldest month first. */
  function Flat(years: Years): seq<Item> {
    var keys := Ascending(years.Keys);
    YearItems(years, keys, |keys|)
  }

  /** The entries among the first n items that are filed under a month. */
  function Select(items: seq<Item>, n: nat, year: Period, month: Period): seq<Entry>
    requires n <= |items|
  {
    if n == 0 then [] else
      Select(items, n - 1, year, month) +
      if items[n - 1].year == year && items[n - 1].month == month then [items[n - 1].entry] else []
  }

  lemma {:induction false} SelectConcat(a: seq<Item>, b: seq<Item>, n: nat, year: Period, month: Period)
    requires n <= |b|
    ensures Select(a + b, |a| + n, year, month) == Select(a, |a|, year, month) + Select(b, n, year, month)
  {
    if n == 0 {
      SelectPrefix(a, b, |a|, year, month);
    } else {
      SelectConcat(a, b, n - 1, year, month);
      assert (a + b)[|a| + n - 1] == b[n - 1];
    }
  }

  lemma NothingSelected(year: Period, month: Period)
    ensures Select([], 0, year, month) == []
  {}

  lemma {:induction false} SelectPrefix(a: seq<Item>, b: seq<Item>, n: nat, year: Period, month: Period)
    requires n <= |a|
    ensures Select(a + b, n, year, month) == Select(a, n, year, month)
  {
    if n > 0 { SelectPrefix(a, b, n - 1, year, month); }
  }

  lemma {:induction false} SelectItemsOf(y: Period, m: Period, list: seq<Entry>, n: nat, year: Period, month: Period)
    requires n <= |list|
    ensures Select(ItemsOf(y, m, list), n, year, month) == if y == year && m == month then list[..n] else []
  {
    if n > 0 { SelectItemsOf(y, m, list, n - 1, year, month); }
  }

  lemma {:induction false} SelectMonths(y: Period, months: map<Period, seq<Entry>>, keys: seq<Period>, n: nat, year: Period, month: Period)
    requires n <= |keys| && forall i :: 0 <= i < |keys| ==> keys[i] in months
    requires forall i, j :: 0 <= i < j < |keys| ==> keys[i] < keys[j]
    ensures var items := MonthItems(y, months, keys, n);
            Select(items, |items|, year, month) ==
              if y == year && month in keys[..n] then months[month] else []
  {
    hide Select, ItemsOf;
    if n == 0 {
      NothingSelected(year, month);
    } else {
      SelectMonths(y, months, keys, n - 1, year, month);
      var before, list := MonthItems(y, months, keys, n - 1), months[keys[n - 1]];
      SelectConcat(before, ItemsOf(y, keys[n - 1], list), |list|, year, month);
      SelectItemsOf(y, keys[n - 1], list, |list|, year, month);
      assert list[..|list|] == list;
      assert keys[..n] == keys[..n - 1] + [keys[n - 1]];
    }
  }

  lemma {:induction false} SelectYears(years: Years, keys: seq<Period>, n: nat, year: Period, month: Period)
    requires n <= |keys| && forall i :: 0 <= i < |keys| ==> keys[i] in years
    requires forall i, j :: 0 <= i < j < |keys| ==> keys[i] < keys[j]
    ensures var items := YearItems(years, keys, n);
            Select(items, |items|, year, month) == if year in keys[..n] then ListAt(years, year, month) else []
  {
    hide MonthItems, ItemsOf, Select, Ascending;
    if n == 0 {
      assert Select([], 0, year, month) == [] by { NothingSelected(year, month); }
    } else {
      SelectYears(years, keys, n - 1, year, month);
      var y := keys[n - 1];
      var months := Ascending(years[y].Keys);
      var before, last := YearItems(years, keys, n - 1), MonthItems(y, years[y], months, |months|);
      SelectConcat(before, last, |last|, year, month);
      SelectMonths(y, years[y], months, |months|, year, month);
      assert months[..|months|] == months;
      assert keys[..n] == keys[..n - 1] + [y];
    }
  }

  /** The list holds exactly the entries of every month, in their order. */
  lemma SelectFlat(years: Years, year: Period, month: Period)
    ensures Select(Flat(years), |Flat(years)|, year, month) == ListAt(years, year, month)
  {
    var keys := Ascending(years.Keys);
    SelectYears(years, keys, |keys|, year, month);
    assert keys[..|keys|] == keys;
  }

  // ---------------------------------------------------------------- serializing

  function BlockOf(cursors: map<nat, int>, e: Entry): Block
    requires e.transactionNr in cursors
  {
    DataBlock(e.transactionNr, cursors[e.transactionNr], e.transactionType, e.coinCommunityIdIndex, e.addressIndices)
  }

  function CallOf(cursors: map<nat, int>, item: Item): Call
    requires item.entry.transactionNr in cursors
  {
    Call(item.year, item.month, BlockOf(cursors, item.entry))
  }

  ghost predicate HaveCursors(cursors: map<nat, int>, items: seq<Item>) {
    forall i :: 0 <= i < |items| ==> items[i].entry.transactionNr in cursors
  }

  function Calls(cursors: map<nat, int>, items: seq<Item>): (calls: seq<Call>)
    requires HaveCursors(cursors, items)
    ensures |calls| == |items| && DataCalls(calls)
  {
    seq(|items|, i requires 0 <= i < |items| => CallOf(cursors, items[i]))
  }

  lemma AppendRecord(blocks: seq<Block>, b: Block)
    ensures var next := blocks + [b];
            YearAt(next, |next|) == (if b.YearBlock? then b.year else YearAt(blocks, |blocks|)) &&
            MonthAt(next, |next|) == (if b.MonthBlock? then b.month else MonthAt(blocks, |blocks|)) &&
            Delivered(next, |next|) == Delivered(blocks, |blocks|) +
              if b.DataBlock? then [Call(YearAt(blocks, |blocks|), MonthAt(blocks, |blocks|), b)] else []
  {
    PrefixStays(blocks, [b], |blocks|);
  }

  // ---------------------------------------------------------------- well-formed indexes

  /** Values that fit the record of an entry; its addresses fit the one-byte count. */
  predicate StorableEntry(e: Entry) {
    0 <= e.transactionNr < 0x1_0000_0000_0000_0000 && 0 <= e.coinCommunityIdIndex < 0x1_0000_0000 &&
    |e.addressIndices| < 0x100 && forall i :: 0 <= i < |e.addressIndices| ==> 0 <= e.addressIndices[i] < 0x1_0000_0000
  }

  predicate AscendingNumbers(list: seq<Entry>) {
    forall i, j :: 0 <= i < j < |list| ==> list[i].transactionNr < list[j].transactionNr
  }

  /** No empty month, and numbers ascend within a month. */
  ghost predicate Tidy(years: Years) {
    (forall y :: y in years ==> years[y] != map[]) &&
    (forall y, m :: y in years && m in years[y] ==> years[y][m] != [] && AscendingNumbers(years[y][m]))
  }

  /** The transaction numbers of the first n items. */
  function Numbers(items: seq<Item>, n: nat): set<nat>
    requires n <= |items|
  {
    if n == 0 then {} else Numbers(items, n - 1) + {items[n - 1].entry.transactionNr}
  }

  ghost predicate AtLeast(numbers: set<nat>, min: nat) {
    0 !in numbers && forall x :: x in numbers ==> min <= x
  }

  ghost predicate Bounds(numbers: set<nat>, min: nat, max: nat) {
    if numbers == {} then min == max == 0
    else min in numbers && max in numbers && forall x :: x in numbers ==> min <= x <= max
  }

  /** The cursors of an index belong to its first n items, and its bounds are the lowest and the highest number of them. */
  ghost predicate NumbersUpTo(target: State, items: seq<Item>, n: nat, st: State)
    requires n <= |items|
  {
    st.cursors.Keys == Numbers(items, n) && Bounds(Numbers(items, n), st.min, st.max) &&
    forall nr :: nr in st.cursors ==> nr in target.cursors && st.cursors[nr] == target.cursors[nr]
  }

  lemma {:induction false} NumberOfItem(items: seq<Item>, i: nat, n: nat)
    requires i < n <= |items|
    ensures items[i].entry.transactionNr in Numbers(items, n)
  {
    if i < n - 1 { NumberOfItem(items, i, n - 1); }
  }

  lemma {:induction false} NumbersGrow(items: seq<Item>, k: nat, n: nat)
    requires k <= n <= |items|
    ensures Numbers(items, k) <= Numbers(items, n)
  {
    if k < n { NumbersGrow(items, k, n - 1); }
  }

  predicate GoodEntry(lib: Library, e: Entry) {
    StorableEntry(e) && e.transactionNr > 0 && lib.isType(e.transactionType)
  }

  ghost predicate GoodItems(lib: Library, items: seq<Item>) {
    forall i :: 0 <= i < |items| ==> GoodEntry(lib, items[i].entry)
  }

  /** Cursors are 32-bit and non-negative, and 0 is only for the lowest number. */
  ghost predicate GoodCursors(st: State) {
    forall nr :: nr in st.cursors ==> 0 <= st.cursors[nr] < 0x8000_0000 && (st.cursors[nr] == 0 ==> nr == st.min)
  }

  /** Months are 8-bit. */
  ghost predicate GoodMonths(years: Years) {
    forall y, m :: y in years && m in years[y] ==> 0 <= m < 0x100
  }

  ghost predicate RealMonths(years: Years) {
    forall y, m :: y in years && m in years[y] ==> 1 <= m <= 12
  }

  ghost predicate WellFormed(lib: Library, st: State) {
    var items := Flat(st.years);
    Tidy(st.years) && GoodMonths(st.years) && GoodItems(lib, items) && GoodCursors(st) &&
    HaveCursors(st.cursors, items) && NumbersUpTo(st, items, |items|, st)
  }

  // ---------------------------------------------------------------- loading rebuilds the index

  ghost predicate ListsUpTo(items: seq<Item>, n: nat, years: Years)
    requires n <= |items|
  {
    Tidy(years) && forall y, m :: ListAt(years, y, m) == Select(items, n, y, m)
  }

  lemma {:induction false} SelectIsPrefix(items: seq<Item>, n: nat, k: nat, year: Period, month: Period)
    requires n <= k <= |items|
    ensures Select(items, n, year, month) <= Select(items, k, year, month)
  {
    if n < k { SelectIsPrefix(items, n, k - 1, year, month); }
  }

  /** Adding an entry to a tidy index files it at the end of its month and nowhere else. */
  lemma PutKeepsTidy(years: Years, year: Period, month: Period, list: seq<Entry>)
    requires Tidy(years) && list != [] && AscendingNumbers(list)
    ensures Tidy(Put(years, year, month, list))
    ensures forall y, m :: ListAt(Put(years, year, month, list), y, m) ==
              if y == year && m == month then list else ListAt(years, y, m)
  {
    var put := Put(years, year, month, list);
    assert month in put[year];
  }

  lemma PutTwice(years: Years, year: Period, month: Period, a: seq<Entry>, b: seq<Entry>)
    ensures Put(Put(years, year, month, a), year, month, b) == Put(years, year, month, b)
  {
    assert Put(years, year, month, a)[year][month := b] == Put(years, year, month, b)[year];
  }

  /** Two tidy indexes with the same entries in every month are the same. */
  lemma SameLists(a: Years, b: Years)
    requires Tidy(a) && Tidy(b) && forall y, m :: ListAt(a, y, m) == ListAt(b, y, m)
    ensures a == b
  {
    SubYears(a, b);
    SubYears(b, a);
    forall y | y in a ensures a[y] == b[y] {
      forall m | m in a[y] || m in b[y] ensures m in a[y] && m in b[y] && a[y][m] == b[y][m] {
        assert ListAt(a, y, m) == ListAt(b, y, m);
      }
    }
  }

  lemma SubYears(a: Years, b: Years)
    requires Tidy(a) && forall y, m :: ListAt(a, y, m) == ListAt(b, y, m)
    ensures forall y :: y in a ==> y in b
  {
    forall y | y in a ensures y in b {
      assert a[y] != map[];
      assert a[y].Keys != {};
      var m :| m in a[y];
      assert ListAt(a, y, m) != [];
    }
  }

  /** The month of the next item, with that item, is the beginning of the month in the whole index, so numbers ascend. */
  lemma NextInOrder(years: Years, items: seq<Item>, n: nat, done: Years)
    requires Tidy(years) && items == Flat(years) && n < |items| && ListsUpTo(items, n, done)
    ensures var item := items[n];
            AscendingNumbers(ListAt(done, item.year, item.month) + [item.entry]) &&
            ListAt(done, item.year, item.month) + [item.entry] == Select(items, n + 1, item.year, item.month)
  {
    hide Flat, Tidy;
    var item := items[n];
    var list, whole := ListAt(done, item.year, item.month) + [item.entry], ListAt(years, item.year, item.month);
    assert list == Select(items, n + 1, item.year, item.month);
    SelectIsPrefix(items, n + 1, |items|, item.year, item.month);
    SelectFlat(years, item.year, item.month);
    MonthAscends(years, item.year, item.month);
    forall i, j | 0 <= i < j < |list| ensures list[i].transactionNr < list[j].transactionNr {
      assert list[i] == whole[i] && list[j] == whole[j];
    }
  }

  lemma MonthAscends(years: Years, year: Period, month: Period)
    requires Tidy(years)
    ensures AscendingNumbers(ListAt(years, year, month))
  {}

  lemma ListsAfter(items: seq<Item>, n: nat, before: Years, list: seq<Entry>)
    requires n < |items| && ListsUpTo(items, n, before)
    requires list != [] && AscendingNumbers(list) && list == Select(items, n + 1, items[n].year, items[n].month)
    ensures ListsUpTo(items, n + 1, Put(before, items[n].year, items[n].month, list))
  {
    hide Put, Tidy;
    PutKeepsTidy(before, items[n].year, items[n].month, list);
  }

  lemma NumbersAfter(target: State, items: seq<Item>, n: nat, st: State, st': State)
    requires n < |items| && items[n].entry.transactionNr in target.cursors && NumbersUpTo(target, items, n, st)
    requires 0 !in Numbers(items, n + 1)
    requires var nr := items[n].entry.transactionNr;
             st'.max == Noted(st, nr).max && st'.min == Noted(st, nr).min &&
             st'.cursors == st.cursors[nr := target.cursors[nr]]
    ensures NumbersUpTo(target, items, n + 1, st')
  {
    assert items[n].entry.transactionNr in Numbers(items, n + 1);
  }

  /** The cursor of the next item is accepted and, whether it is new or known, ends up in the map. */
  lemma CursorFits(target: State, items: seq<Item>, n: nat, st: State, filed: State)
    requires n < |items| && items[n].entry.transactionNr in target.cursors && NumbersUpTo(target, items, n, st)
    requires GoodCursors(target) && AtLeast(Numbers(items, n + 1), target.min)
    requires var nr := items[n].entry.transactionNr; filed.min == Noted(st, nr).min && filed.cursors == st.cursors
    ensures var nr := items[n].entry.transactionNr;
            var (st', r) := CursorAdded(filed, nr, target.cursors[nr]);
            r.Ok? && st' == filed.(cursors := st.cursors[nr := target.cursors[nr]])
  {
    var nr := items[n].entry.transactionNr;
    assert nr in Numbers(items, n + 1);
    assert nr in st.cursors ==> st.cursors[nr := target.cursors[nr]] == st.cursors;
  }

  lemma RebuildStep(lib: Library, target: State, items: seq<Item>, n: nat, st: State)
    requires WellFormed(lib, target) && items == Flat(target.years) && n < |items|
    requires ListsUpTo(items, n, st.years) && NumbersUpTo(target, items, n, st)
    ensures var (st', r) := Added(st, CallOf(target.cursors, items[n]));
            r == Ok(true) && ListsUpTo(items, n + 1, st'.years) && NumbersUpTo(target, items, n + 1, st')
  {
    hide ListsUpTo, NumbersUpTo, GoodItems, GoodCursors, Tidy, Flat, Added, Select, Numbers, AscendingNumbers;
    NextInOrder(target.years, items, n, st.years);
    LowestIsMin(lib, target, items, n + 1);
    AddedNext(lib, target, items, n, st);
  }

  lemma LowestIsMin(lib: Library, target: State, items: seq<Item>, n: nat)
    requires WellFormed(lib, target) && items == Flat(target.years) && n <= |items|
    ensures AtLeast(Numbers(items, n), target.min)
  {
    hide Flat, Tidy, GoodCursors;
    NumbersGrow(items, n, |items|);
    NoZero(lib, items, n);
  }

  lemma {:induction false} NoZero(lib: Library, items: seq<Item>, n: nat)
    requires GoodItems(lib, items) && n <= |items|
    ensures 0 !in Numbers(items, n)
  {
    if n > 0 { NoZero(lib, items, n - 1); }
  }

  lemma AddedNext(lib: Library, target: State, items: seq<Item>, n: nat, st: State)
    requires n < |items| && items[n].entry.transactionNr in target.cursors && GoodItems(lib, items) && GoodCursors(target)
    requires ListsUpTo(items, n, st.years) && NumbersUpTo(target, items, n, st)
    requires AtLeast(Numbers(items, n + 1), target.min)
    requires var item := items[n];
             AscendingNumbers(ListAt(st.years, item.year, item.month) + [item.entry]) &&
             ListAt(st.years, item.year, item.month) + [item.entry] == Select(items, n + 1, item.year, item.month)
    ensures var (st', r) := Added(st, CallOf(target.cursors, items[n]));
            r == Ok(true) && ListsUpTo(items, n + 1, st'.years) && NumbersUpTo(target, items, n + 1, st')
  {
    hide ListsUpTo, NumbersUpTo, GoodCursors, Put, Select, Numbers, Added, CursorAdded;
    var item, nr := items[n], items[n].entry.transactionNr;
    var list := ListAt(st.years, item.year, item.month);
    CountableAddresses(target.cursors, item.entry);
    var filed := Noted(st, nr).(years := Put(st.years, item.year, item.month, list + [item.entry]));
    CursorFits(target, items, n, st, filed);
    var st' := filed.(cursors := st.cursors[nr := target.cursors[nr]]);
    AddedIs(st, CallOf(target.cursors, item), item.entry, filed);
    ListsAfter(items, n, st.years, list + [item.entry]);
    NumbersAfter(target, items, n, st, st');
  }

  lemma CountableAddresses(cursors: map<nat, int>, e: Entry)
    requires StorableEntry(e) && e.transactionNr in cursors
    ensures EntryOf(BlockOf(cursors, e)) == e
  {
    assert e.addressIndices[..|e.addressIndices| % 0x100] == e.addressIndices;
  }

  /** What Added comes down to when the order is kept and the addresses can be counted. */
  lemma AddedIs(st: State, call: Call, entry: Entry, filed: State)
    requires call.data.DataBlock? && call.data.transactionNr == entry.transactionNr && EntryOf(call.data) == entry
    requires |call.data.addressIndices| < 0x100
    requires AscendingNumbers(ListAt(st.years, call.year, call.month) + [entry])
    requires filed == Noted(st, entry.transactionNr).(
               years := Put(st.years, call.year, call.month, ListAt(st.years, call.year, call.month) + [entry]))
    ensures CursorAdded(filed, entry.transactionNr, call.data.fileCursor).1.Ok? ==>
              Added(st, call) == (CursorAdded(filed, entry.transactionNr, call.data.fileCursor).0, Ok(true))
  {
    hide Put, CursorAdded;
    var list := ListAt(st.years, call.year, call.month);
    if list != [] {
      assert (list + [entry])[|list| - 1] == list[|list| - 1] && (list + [entry])[|list|] == entry;
    }
  }

  /** Adding the items of a well-formed index one by one to an empty one meets no exception and rebuilds it. */
  lemma {:induction false} LoadsItems(lib: Library, target: State, items: seq<Item>, n: nat)
    requires WellFormed(lib, target) && items == Flat(target.years) && n <= |items|
    ensures var (st, r) := LoadedUpTo(EMPTY, Calls(target.cursors, items), n);
            r == Ok(true) && ListsUpTo(items, n, st.years) && NumbersUpTo(target, items, n, st)
  {
    hide ListsUpTo, NumbersUpTo, GoodItems, GoodCursors, Tidy, Flat, Added;
    if n == 0 {
      NothingLoaded(target, items);
    } else {
      LoadsItems(lib, target, items, n - 1);
      RebuildStep(lib, target, items, n - 1, LoadedUpTo(EMPTY, Calls(target.cursors, items), n - 1).0);
    }
  }

  lemma NothingLoaded(target: State, items: seq<Item>)
    ensures ListsUpTo(items, 0, EMPTY.years) && NumbersUpTo(target, items, 0, EMPTY)
  {}

  lemma SameNumbers(target: State, items: seq<Item>, st: State)
    requires NumbersUpTo(target, items, |items|, target) && NumbersUpTo(target, items, |items|, st)
    ensures st.cursors == target.cursors && st.min == target.min && st.max == target.max
  {
    assert st.cursors.Keys == target.cursors.Keys;
    assert st.cursors == target.cursors;
  }

  lemma RebuiltIsTarget(lib: Library, target: State, items: seq<Item>, st: State)
    requires WellFormed(lib, target) && items == Flat(target.years)
    requires ListsUpTo(items, |items|, st.years) && NumbersUpTo(target, items, |items|, st)
    ensures st == target
  {
    hide Flat, Tidy, GoodItems, GoodCursors, NumbersUpTo;
    forall y, m ensures ListAt(st.years, y, m) == ListAt(target.years, y, m) { SelectFlat(target.years, y, m); }
    SameLists(st.years, target.years);
    SameNumbers(target, items, st);
  }

  // ---------------------------------------------------------------- the records of an index

  ghost predicate ListHasCursors(cursors: map<nat, int>, list: seq<Entry>) {
    forall i :: 0 <= i < |list| ==> list[i].transactionNr in cursors
  }

  ghost predicate YearsHaveCursors(cursors: map<nat, int>, years: Years) {
    forall y, m :: y in years && m in years[y] ==> ListHasCursors(cursors, years[y][m])
  }

  ghost function EntryBlocks(cursors: map<nat, int>, list: seq<Entry>, n: nat): seq<Block>
    requires n <= |list| && ListHasCursors(cursors, list)
  {
    if n == 0 then [] else EntryBlocks(cursors, list, n - 1) + [BlockOf(cursors, list[n - 1])]
  }

  ghost function MonthBlocks(cursors: map<nat, int>, months: map<Period, seq<Entry>>, keys: seq<Period>, n: nat): seq<Block>
    requires n <= |keys| && forall i :: 0 <= i < |keys| ==> keys[i] in months
    requires forall m :: m in months ==> ListHasCursors(cursors, months[m])
  {
    if n == 0 then [] else
      var list := months[keys[n - 1]];
      MonthBlocks(cursors, months, keys, n - 1) + [MonthBlock(keys[n - 1])] + EntryBlocks(cursors, list, |list|)
  }

  ghost function YearBlocks(cursors: map<nat, int>, years: Years, keys: seq<Period>, n: nat): seq<Block>
    requires n <= |keys| && (forall i :: 0 <= i < |keys| ==> keys[i] in years) && YearsHaveCursors(cursors, years)
  {
    if n == 0 then [] else
      var months := Ascending(years[keys[n - 1]].Keys);
      YearBlocks(cursors, years, keys, n - 1) + [YearBlock(keys[n - 1])] +
      MonthBlocks(cursors, years[keys[n - 1]], months, |months|)
  }

  ghost function Blocks(st: State): seq<Block>
    requires YearsHaveCursors(st.cursors, st.years)
  {
    var keys := Ascending(st.years.Keys);
    YearBlocks(st.cursors, st.years, keys, |keys|)
  }

  lemma CallsConcat(cursors: map<nat, int>, a: seq<Item>, b: seq<Item>)
    requires HaveCursors(cursors, a) && HaveCursors(cursors, b)
    ensures HaveCursors(cursors, a + b) && Calls(cursors, a + b) == Calls(cursors, a) + Calls(cursors, b)
  {}

  lemma {:induction false} EntriesDeliver(cursors: map<nat, int>, before: seq<Block>, year: Period, month: Period, list: seq<Entry>, n: nat)
    requires n <= |list| && ListHasCursors(cursors, list)
    requires YearAt(before, |before|) == year && MonthAt(before, |before|) == month
    ensures var blocks, items := before + EntryBlocks(cursors, list, n), ItemsOf(year, month, list)[..n];
            YearAt(blocks, |blocks|) == year && MonthAt(blocks, |blocks|) == month && HaveCursors(cursors, items) &&
            Delivered(blocks, |blocks|) == Delivered(before, |before|) + Calls(cursors, items)
  {
    hide YearAt, MonthAt, Delivered;
    var items := ItemsOf(year, month, list);
    if n == 0 {
      assert before + [] == before;
    } else {
      EntriesDeliver(cursors, before, year, month, list, n - 1);
      var shorter, b := before + EntryBlocks(cursors, list, n - 1), BlockOf(cursors, list[n - 1]);
      AppendRecord(shorter, b);
      assert before + EntryBlocks(cursors, list, n) == shorter + [b];
      assert items[..n] == items[..n - 1] + [Item(year, month, list[n - 1])];
      CallsConcat(cursors, items[..n - 1], [Item(year, month, list[n - 1])]);
    }
  }

  lemma {:induction false} MonthsDeliver(cursors: map<nat, int>, before: seq<Block>, year: Period,
                                         months: map<Period, seq<Entry>>, keys: seq<Period>, n: nat)
    requires n <= |keys| && forall i :: 0 <= i < |keys| ==> keys[i] in months
    requires forall m :: m in months ==> ListHasCursors(cursors, months[m])
    requires YearAt(before, |before|) == year
    ensures var blocks, items := before + MonthBlocks(cursors, months, keys, n), MonthItems(year, months, keys, n);
            YearAt(blocks, |blocks|) == year && HaveCursors(cursors, items) &&
            Delivered(blocks, |blocks|) == Delivered(before, |before|) + Calls(cursors, items)
  {
    hide YearAt, MonthAt, Delivered, EntryBlocks, ItemsOf;
    if n == 0 {
      assert before + [] == before;
    } else {
      MonthsDeliver(cursors, before, year, months, keys, n - 1);
      var shorter, key := before + MonthBlocks(cursors, months, keys, n - 1), keys[n - 1];
      var list := months[key];
      AppendRecord(shorter, MonthBlock(key));
      EntriesDeliver(cursors, shorter + [MonthBlock(key)], year, key, list, |list|);
      var last := ItemsOf(year, key, list);
      assert last[..|list|] == last;
      CallsConcat(cursors, MonthItems(year, months, keys, n - 1), last);
      assert before + MonthBlocks(cursors, months, keys, n) == shorter + [MonthBlock(key)] + EntryBlocks(cursors, list, |list|);
    }
  }

  lemma NothingDelivered()
    ensures Delivered([], 0) == []
  {}

  lemma {:induction false} YearsDeliver(cursors: map<nat, int>, years: Years, keys: seq<Period>, n: nat)
    requires n <= |keys| && (forall i :: 0 <= i < |keys| ==> keys[i] in years) && YearsHaveCursors(cursors, years)
    ensures var blocks, items := YearBlocks(cursors, years, keys, n), YearItems(years, keys, n);
            HaveCursors(cursors, items) && Delivered(blocks, |blocks|) == Calls(cursors, items)
  {
    hide YearAt, MonthAt, Delivered, MonthBlocks, MonthItems, Ascending, BlockOf;
    if n == 0 {
      NothingDelivered();
    } else {
      YearsDeliver(cursors, years, keys, n - 1);
      var shorter, key := YearBlocks(cursors, years, keys, n - 1), keys[n - 1];
      var months := Ascending(years[key].Keys);
      AppendRecord(shorter, YearBlock(key));
      MonthsDeliver(cursors, shorter + [YearBlock(key)], key, years[key], months, |months|);
      CallsConcat(cursors, YearItems(years, keys, n - 1), MonthItems(key, years[key], months, |months|));
    }
  }

  // ---------------------------------------------------------------- a saved index is the same after loading

  /** What the widths of the fields and the check of addFileCursorForTransaction ensure of an entry and its cursor. */
  ghost predicate EntryFits(lib: Library, cursors: map<nat, int>, e: Entry) {
    StorableEntry(e) && lib.isType(e.transactionType) &&
    (e.transactionNr in cursors ==> 0 <= cursors[e.transactionNr] < 0x8000_0000)
  }

  ghost predicate ListFits(lib: Library, cursors: map<nat, int>, list: seq<Entry>) {
    forall i :: 0 <= i < |list| ==> EntryFits(lib, cursors, list[i])
  }

  ghost predicate YearsFit(lib: Library, cursors: map<nat, int>, years: Years) {
    GoodMonths(years) && forall y, m :: y in years && m in years[y] ==> ListFits(lib, cursors, years[y][m])
  }

  lemma {:induction false} SelectedIsItem(items: seq<Item>, n: nat, year: Period, month: Period, k: nat)
    requires n <= |items| && k < |Select(items, n, year, month)|
    ensures exists i :: 0 <= i < n && items[i].entry == Select(items, n, year, month)[k]
  {
    if k < |Select(items, n - 1, year, month)| {
      SelectedIsItem(items, n - 1, year, month, k);
    } else {
      assert items[n - 1].entry == Select(items, n, year, month)[k];
    }
  }

  lemma EntryIsItem(years: Years, year: Period, month: Period, k: nat)
    requires year in years && month in years[year] && k < |years[year][month]|
    ensures exists i :: 0 <= i < |Flat(years)| && Flat(years)[i].entry == years[year][month][k]
  {
    SelectFlat(years, year, month);
    SelectedIsItem(Flat(years), |Flat(years)|, year, month, k);
  }

  /** What holds for the items of a well-formed index holds for the entries of its months. */
  lemma WellFormedYears(lib: Library, st: State)
    requires WellFormed(lib, st)
    ensures YearsHaveCursors(st.cursors, st.years) && YearsFit(lib, st.cursors, st.years)
  {
    hide Flat, Tidy, NumbersUpTo;
    forall y, m, i | y in st.years && m in st.years[y] && 0 <= i < |st.years[y][m]|
      ensures EntryFits(lib, st.cursors, st.years[y][m][i]) && st.years[y][m][i].transactionNr in st.cursors
    {
      EntryIsItem(st.years, y, m, i);
    }
  }

  /** Records that can be written and will be accepted when they are read. */
  ghost predicate Readable(lib: Library, blocks: seq<Block>) {
    AllStorable(blocks) && forall i :: 0 <= i < |blocks| ==> Acceptable(lib, blocks[i])
  }

  lemma ReadableTogether(lib: Library, a: seq<Block>, b: seq<Block>)
    requires Readable(lib, a) && Readable(lib, b)
    ensures Readable(lib, a + b)
  {}

  lemma YearReadable(lib: Library, year: Period)
    ensures Readable(lib, [YearBlock(year)]) && Readable(lib, [])
  {}

  lemma {:induction false} EntriesReadable(lib: Library, cursors: map<nat, int>, list: seq<Entry>, n: nat)
    requires n <= |list| && ListHasCursors(cursors, list) && ListFits(lib, cursors, list)
    ensures Readable(lib, EntryBlocks(cursors, list, n))
  {
    if n > 0 { EntriesReadable(lib, cursors, list, n - 1); }
  }

  lemma {:induction false} MonthsReadable(lib: Library, cursors: map<nat, int>, months: map<Period, seq<Entry>>, keys: seq<Period>, n: nat)
    requires n <= |keys| && forall i :: 0 <= i < |keys| ==> keys[i] in months && 0 <= keys[i] < 0x100
    requires forall m :: m in months ==> ListHasCursors(cursors, months[m]) && ListFits(lib, cursors, months[m])
    ensures Readable(lib, MonthBlocks(cursors, months, keys, n))
  {
    hide EntryBlocks, ListHasCursors, ListFits;
    if n > 0 {
      MonthsReadable(lib, cursors, months, keys, n - 1);
      EntriesReadable(lib, cursors, months[keys[n - 1]], |months[keys[n - 1]]|);
    }
  }

  lemma {:induction false} YearsReadable(lib: Library, cursors: map<nat, int>, years: Years, keys: seq<Period>, n: nat)
    requires n <= |keys| && forall i :: 0 <= i < |keys| ==> keys[i] in years
    requires YearsHaveCursors(cursors, years) && YearsFit(lib, cursors, years)
    ensures Readable(lib, YearBlocks(cursors, years, keys, n))
  {
    hide MonthBlocks, ListHasCursors, ListFits, Readable;
    YearReadable(lib, if n == 0 then 0 else keys[n - 1]);
    if n > 0 {
      YearsReadable(lib, cursors, years, keys, n - 1);
      var months := Ascending(years[keys[n - 1]].Keys);
      assert forall i :: 0 <= i < |months| ==> months[i] in months;
      MonthsReadable(lib, cursors, years[keys[n - 1]], months, |months|);
      ReadableTogether(lib, YearBlocks(cursors, years, keys, n - 1), [YearBlock(keys[n - 1])]);
      ReadableTogether(lib, YearBlocks(cursors, years, keys, n - 1) + [YearBlock(keys[n - 1])],
                       MonthBlocks(cursors, years[keys[n - 1]], months, |months|));
    }
  }

  lemma BlocksReadable(lib: Library, st: State)
    requires YearsHaveCursors(st.cursors, st.years) && YearsFit(lib, st.cursors, st.years)
    ensures Readable(lib, Blocks(st))
  {
    var keys := Ascending(st.years.Keys);
    YearsReadable(lib, st.cursors, st.years, keys, |keys|);
  }

  /** Reading calls the receiver with data records only. */
  lemma {:induction false} ParsedCalls(lib: Library, s: seq<byte>, r: Reader)
    requires DataCalls(r.calls)
    ensures DataCalls(ParseFrom(lib, s, r).0.calls)
    decreases |s|
  {
    hide ParseItem, Hashed;
    if s != [] && ParseItem(lib, s).Record? {
      ParsedIsStorable(lib, s);
      var b, n := ParseItem(lib, s).block, ParseItem(lib, s).length;
      if !(b.DataBlock? && b.fileCursor < 0) {
        ParsedCalls(lib, s[n..], TakeBlock(r, b));
      }
    }
  }

  lemma ParsedFile(lib: Library, content: seq<byte>)
    ensures DataCalls(ParseFile(lib, content).0.calls)
  {
    ParsedCalls(lib, content, START);
  }

  /** loadFromFile: the index receives the calls in order; an exception of the index ends the reading early, one of the
      reader ends it after the calls before it. */
  function LoadedFile(st: State, lib: Library, content: seq<byte>): (State, Result<bool, IndexError>) {
    ParsedFile(lib, content);
    var (reader, result) := ParseFile(lib, content);
    var (st', r) := LoadedUpTo(st, reader.calls, |reader.calls|);
    (st', if r.Err? then r else match result case Ok(found) => Ok(found) case Err(e) => Err(FileError(e)))
  }

  /** Reading a written well-formed index delivers its items in order. */
  lemma FileDelivers(lib: Library, st: State)
    requires WellFormed(lib, st)
    ensures YearsHaveCursors(st.cursors, st.years) && AllStorable(Blocks(st)) && HaveCursors(st.cursors, Flat(st.years))
    ensures var (reader, result) := ParseFile(lib, FileOf(lib, Blocks(st)));
            reader.calls == Calls(st.cursors, Flat(st.years)) && result == Ok(true)
  {
    hide WellFormed, YearsHaveCursors, YearsFit, FileOf, ParseFile, Delivered, YearItems, YearBlocks;
    var keys := Ascending(st.years.Keys);
    WellFormedYears(lib, st);
    BlocksReadable(lib, st);
    WrittenFileReadsBack(lib, Blocks(st));
    YearsDeliver(st.cursors, st.years, keys, |keys|);
  }

  lemma ItemsRestore(lib: Library, st: State)
    requires WellFormed(lib, st)
    ensures var calls := Calls(st.cursors, Flat(st.years)); LoadedUpTo(EMPTY, calls, |calls|) == (st, Ok(true))
  {
    hide Flat, Tidy, GoodMonths, GoodItems, GoodCursors, NumbersUpTo, LoadedUpTo;
    var items := Flat(st.years);
    LoadsItems(lib, st, items, |items|);
    RebuiltIsTarget(lib, st, items, LoadedUpTo(EMPTY, Calls(st.cursors, items), |items|).0);
  }

  /** Loading what was written of a well-formed index rebuilds its entries, cursors and bounds, with no exception. */
  lemma ReloadRestoresIndex(lib: Library, st: State)
    requires WellFormed(lib, st)
    ensures YearsHaveCursors(st.cursors, st.years) && AllStorable(Blocks(st))
    ensures LoadedFile(EMPTY, lib, FileOf(lib, Blocks(st))) == (st, Ok(true))
  {
    hide WellFormed, YearsHaveCursors, AllStorable, HaveCursors, FileOf, ParseFile, Calls, LoadedUpTo;
    FileDelivers(lib, st);
    ItemsRestore(lib, st);
  }
}
