/** The search of one block compared with reading all of its entries one after the other. */
module LinearSearch {
  import opened ByteCodec
  import opened YearMonthIndex
  import opened BlockSearch
  import IndexFormat
  import D = Dictionary

  /** Every entry of the block in the order of the months, picked by its month and by what a match means. */
  ghost function LinearScan(f: Filter, dict: D.State, items: seq<Item>, n: nat): seq<nat>
    requires n <= |items|
  {
    if n == 0 then [] else LinearScan(f, dict, items, n - 1) + Picked(f, dict, items[n - 1])
  }

  ghost function Picked(f: Filter, dict: D.State, item: Item): seq<nat> {
    if InInterval(f.interval, Ordinal(item.year, item.month)) && Matches(f, dict, item.entry)
    then [item.entry.transactionNr] else []
  }

  function InOrder(direction: Direction, numbers: seq<nat>): seq<nat> {
    if direction == ASC then numbers else Reverse(numbers)
  }

  /** A tidy index with real months, whose bounds hold. */
  ghost predicate Searchable(st: State) {
    (forall y :: y in st.years ==> st.years[y] != map[]) && RealMonths(st.years) &&
    (var items := Flat(st.years);
     forall i :: 0 <= i < |items| ==> st.min <= items[i].entry.transactionNr <= st.max)
  }

  lemma WellFormedIsSearchable(lib: IndexFormat.Library, st: State)
    requires WellFormed(lib, st) && RealMonths(st.years)
    ensures Searchable(st)
  {
    hide Flat;
    var items := Flat(st.years);
    forall i | 0 <= i < |items| ensures st.min <= items[i].entry.transactionNr <= st.max {
      NumberOfItem(items, i, |items|);
    }
  }

  // ---------------------------------------------------------------- entries lie in the order of the months

  predicate SortedItems(items: seq<Item>) {
    forall i, j :: 0 <= i < j < |items| ==> Ordinal(items[i].year, items[i].month) <= Ordinal(items[j].year, items[j].month)
  }

  lemma {:induction false} MonthsSorted(year: IndexFormat.Period, months: map<IndexFormat.Period, seq<Entry>>,
                                        keys: seq<IndexFormat.Period>, n: nat)
    requires n <= |keys| && forall i :: 0 <= i < |keys| ==> keys[i] in months
    requires forall i, j :: 0 <= i < j < |keys| ==> keys[i] < keys[j]
    ensures var items := MonthItems(year, months, keys, n);
            SortedItems(items) && forall i :: 0 <= i < |items| ==> items[i].year == year && items[i].month in keys[..n]
  {
    if n > 0 { MonthsSorted(year, months, keys, n - 1); }
  }

  lemma {:induction false} YearsSorted(years: Years, keys: seq<IndexFormat.Period>, n: nat)
    requires n <= |keys| && (forall i :: 0 <= i < |keys| ==> keys[i] in years) && RealMonths(years)
    requires forall i, j :: 0 <= i < j < |keys| ==> keys[i] < keys[j]
    ensures var items := YearItems(years, keys, n);
            SortedItems(items) &&
            forall i :: 0 <= i < |items| ==> items[i].year in keys[..n] && items[i].month in years[items[i].year]
  {
    hide MonthItems, Ascending;
    if n > 0 {
      YearsSorted(years, keys, n - 1);
      var y := keys[n - 1];
      var months := Ascending(years[y].Keys);
      MonthsSorted(y, years[y], months, |months|);
      SortedTogether(YearItems(years, keys, n - 1), MonthItems(y, years[y], months, |months|));
    }
  }

  lemma SortedTogether(a: seq<Item>, b: seq<Item>)
    requires SortedItems(a) && SortedItems(b)
    requires forall i, j :: 0 <= i < |a| && 0 <= j < |b| ==> a[i].year < b[j].year && 1 <= a[i].month <= 12 && 1 <= b[j].month <= 12
    ensures SortedItems(a + b)
  {}

  lemma FlatSorted(years: Years)
    requires RealMonths(years)
    ensures var items := Flat(years);
            SortedItems(items) &&
            forall i :: 0 <= i < |items| ==> items[i].year in years && items[i].month in years[items[i].year]
  {
    var keys := Ascending(years.Keys);
    YearsSorted(years, keys, |keys|);
  }

  // ---------------------------------------------------------------- one month after the other

  /** The entries of the first n items whose month lies from lo to hi. */
  function Between(items: seq<Item>, n: nat, lo: int, hi: int): seq<Entry>
    requires n <= |items|
  {
    if n == 0 then [] else
      Between(items, n - 1, lo, hi) +
      if lo <= Ordinal(items[n - 1].year, items[n - 1].month) <= hi then [items[n - 1].entry] else []
  }

  lemma {:induction false} NoneBetween(items: seq<Item>, n: nat, lo: int, hi: int)
    requires n <= |items| && forall i :: 0 <= i < n ==> !(lo <= Ordinal(items[i].year, items[i].month) <= hi)
    ensures Between(items, n, lo, hi) == []
  {
    if n > 0 { NoneBetween(items, n - 1, lo, hi); }
  }

  /** The last month of a range stands behind the others. */
  lemma {:induction false} SplitLastMonth(items: seq<Item>, n: nat, lo: int, hi: int)
    requires n <= |items| && SortedItems(items) && lo <= hi
    ensures Between(items, n, lo, hi) == Between(items, n, lo, hi - 1) + Between(items, n, hi, hi)
  {
    if n > 0 {
      SplitLastMonth(items, n - 1, lo, hi);
      var o := Ordinal(items[n - 1].year, items[n - 1].month);
      if o < hi { NoneBetween(items, n - 1, hi, hi); }
    }
  }

  lemma {:induction false} OneMonthSelected(items: seq<Item>, n: nat, year: IndexFormat.Period, month: IndexFormat.Period)
    requires n <= |items| && 1 <= month <= 12 && forall i :: 0 <= i < |items| ==> 1 <= items[i].month <= 12
    ensures Between(items, n, Ordinal(year, month), Ordinal(year, month)) == Select(items, n, year, month)
  {
    if n > 0 { OneMonthSelected(items, n - 1, year, month); }
  }

  lemma MonthOfOrdinal(o: int)
    ensures 1 <= o % 12 + 1 <= 12 && Ordinal(o / 12, o % 12 + 1) == o
  {}

  lemma OrdinalOfMonth(year: int, month: int)
    requires 1 <= month <= 12
    ensures Ordinal(year, month) / 12 == year
  {}

  lemma EntriesOfMonth(years: Years, o: int)
    requires RealMonths(years)
    ensures Between(Flat(years), |Flat(years)|, o, o) == EntriesAt(years, o)
  {
    hide Flat;
    FlatSorted(years);
    MonthOfOrdinal(o);
    if -0x8000 <= o / 12 < 0x8000 {
      OneMonthSelected(Flat(years), |Flat(years)|, o / 12, o % 12 + 1);
      SelectFlat(years, o / 12, o % 12 + 1);
    } else {
      forall i | 0 <= i < |Flat(years)| ensures Ordinal(Flat(years)[i].year, Flat(years)[i].month) != o {
        OrdinalOfMonth(Flat(years)[i].year, Flat(years)[i].month);
      }
      NoneBetween(Flat(years), |Flat(years)|, o, o);
    }
  }

  /** Matches in the months from lo to hi. */
  function RangeHits(f: Filter, key: nat, years: Years, lo: int, hi: int): seq<nat>
    decreases hi - lo
  {
    if hi < lo then [] else RangeHits(f, key, years, lo, hi - 1) + Hits(f, key, EntriesAt(years, hi), 0)
  }

  lemma {:induction false} RangeFromFlat(f: Filter, key: nat, years: Years, lo: int, hi: int)
    requires RealMonths(years)
    ensures RangeHits(f, key, years, lo, hi) == Hits(f, key, Between(Flat(years), |Flat(years)|, lo, hi), 0)
    decreases hi - lo
  {
    hide Flat, EntriesAt;
    var items := Flat(years);
    if hi < lo {
      NoneBetween(items, |items|, lo, hi);
    } else {
      RangeFromFlat(f, key, years, lo, hi - 1);
      FlatSorted(years);
      SplitLastMonth(items, |items|, lo, hi);
      EntriesOfMonth(years, hi);
      HitsConcat(f, key, Between(items, |items|, lo, hi - 1), EntriesAt(years, hi), 0);
    }
  }

  lemma {:induction false} FirstMonthFirst(f: Filter, key: nat, years: Years, lo: int, hi: int)
    requires lo <= hi
    ensures RangeHits(f, key, years, lo, hi) == Hits(f, key, EntriesAt(years, lo), 0) + RangeHits(f, key, years, lo + 1, hi)
    decreases hi - lo
  {
    hide EntriesAt, Hits;
    if lo < hi { FirstMonthFirst(f, key, years, lo, hi - 1); }
  }

  lemma {:induction false} AscendingWalk(f: Filter, key: nat, years: Years, lo: int, hi: int, n: nat)
    requires n <= MonthCount(lo, hi)
    ensures GroupHits(f, key, Groups(years, ASC, lo, hi), n) == RangeHits(f, key, years, lo, lo + n - 1)
  {
    hide EntriesAt, Hits;
    if n > 0 {
      AscendingWalk(f, key, years, lo, hi, n - 1);
      GroupIs(years, ASC, lo, hi, n - 1);
    }
  }

  lemma {:induction false} DescendingWalk(f: Filter, key: nat, years: Years, lo: int, hi: int, n: nat)
    requires n <= MonthCount(lo, hi)
    ensures GroupHits(f, key, Groups(years, DESC, lo, hi), n) == Reverse(RangeHits(f, key, years, hi - n + 1, hi))
  {
    hide EntriesAt, Hits, Groups, Directed, RangeHits;
    if n == 0 {
      NoMonths(f, key, years, hi + 1, hi);
    } else {
      DescendingWalk(f, key, years, lo, hi, n - 1);
      GroupIs(years, DESC, lo, hi, n - 1);
      var month := EntriesAt(years, hi - n + 1);
      DirectedHits(f, key, DESC, month);
      FirstMonthFirst(f, key, years, hi - n + 1, hi);
      ReverseConcat(Hits(f, key, month, 0), RangeHits(f, key, years, hi - n + 2, hi));
    }
  }

  lemma NoMonths(f: Filter, key: nat, years: Years, lo: int, hi: int)
    requires hi < lo
    ensures RangeHits(f, key, years, lo, hi) == []
  {}

  /** All matches of the months from lo to hi, in search order. */
  lemma WalkFindsRange(f: Filter, key: nat, years: Years, lo: int, hi: int)
    requires RealMonths(years)
    ensures var groups := Groups(years, f.direction, lo, hi);
            GroupHits(f, key, groups, |groups|) ==
              InOrder(f.direction, Hits(f, key, Between(Flat(years), |Flat(years)|, lo, hi), 0))
  {
    hide Flat, Hits, RangeHits, Between, GroupHits, Groups;
    RangeFromFlat(f, key, years, lo, hi);
    if hi < lo {
      NoMonths(f, key, years, lo, hi);
      NoGroups(f, key, Groups(years, f.direction, lo, hi));
    } else if f.direction == ASC {
      AscendingWalk(f, key, years, lo, hi, hi - lo + 1);
    } else {
      DescendingWalk(f, key, years, lo, hi, hi - lo + 1);
    }
  }

  lemma NoGroups(f: Filter, key: nat, groups: seq<seq<Entry>>)
    ensures GroupHits(f, key, groups, 0) == []
  {}

  // ---------------------------------------------------------------- what the search finds

  /** Searching for the index of the key between lo and hi, if that picks the same items as the filter means. */
  lemma {:induction false} HitsArePicked(f: Filter, key: nat, dict: D.State, items: seq<Item>, n: nat, lo: int, hi: int)
    requires n <= |items|
    requires forall i :: 0 <= i < n ==> var o := Ordinal(items[i].year, items[i].month);
                                        (lo <= o <= hi && IsMatching(f, key, items[i].entry) <==>
                                         InInterval(f.interval, o) && Matches(f, dict, items[i].entry))
    ensures Hits(f, key, Between(items, n, lo, hi), 0) == LinearScan(f, dict, items, n)
  {
    hide IsMatching, Matches, InInterval, Ordinal;
    if n > 0 {
      HitsArePicked(f, key, dict, items, n - 1, lo, hi);
      var item := items[n - 1];
      var before := Between(items, n - 1, lo, hi);
      if lo <= Ordinal(item.year, item.month) <= hi {
        assert Between(items, n, lo, hi) == before + [item.entry];
        HitsConcat(f, key, before, [item.entry], 0);
        OneHit(f, key, item.entry);
      } else {
        assert Between(items, n, lo, hi) == before;
      }
      assert Hits(f, key, Between(items, n, lo, hi), 0) == Hits(f, key, before, 0) + Picked(f, dict, item);
    }
  }

  lemma {:induction false} NonePicked(f: Filter, dict: D.State, items: seq<Item>, n: nat)
    requires n <= |items| && forall i :: 0 <= i < n ==> Picked(f, dict, items[i]) == []
    ensures LinearScan(f, dict, items, n) == []
  {
    hide Picked;
    if n > 0 { NonePicked(f, dict, items, n - 1); }
  }

  lemma OldestBelow(years: Years, year: IndexFormat.Period, month: IndexFormat.Period)
    requires (forall y :: y in years ==> years[y] != map[]) && RealMonths(years) && year in years && month in years[year]
    ensures Oldest(years) <= Ordinal(year, month)
  {
    hide Ascending;
    KeysWithin(years.Keys);
    var first := Ascending(years.Keys)[0];
    assert years[first].Keys != {};
    KeysWithin(years[first].Keys);
    var m := Ascending(years[first].Keys)[0];
    assert Oldest(years) == Ordinal(first, m) && first <= year && m in years[first];
  }

  lemma NewestAbove(years: Years, year: IndexFormat.Period, month: IndexFormat.Period)
    requires (forall y :: y in years ==> years[y] != map[]) && RealMonths(years) && year in years && month in years[year]
    ensures Ordinal(year, month) <= Newest(years)
  {
    hide Ascending;
    KeysWithin(years.Keys);
    var last := Ascending(years.Keys)[|Ascending(years.Keys)| - 1];
    assert years[last].Keys != {};
    KeysWithin(years[last].Keys);
    var m := Ascending(years[last].Keys)[|Ascending(years[last].Keys)| - 1];
    assert Newest(years) == Ordinal(last, m) && year <= last && m in years[last];
  }

  lemma OldestFirst(years: Years)
    requires (forall y :: y in years ==> years[y] != map[]) && RealMonths(years)
    ensures Oldest(years) <= Newest(years)
  {
    hide Ascending, Oldest, Newest;
    if years != map[] {
      KeysWithin(years.Keys);
      var y := Ascending(years.Keys)[0];
      assert years[y].Keys != {};
      KeysWithin(years[y].Keys);
      OldestBelow(years, y, Ascending(years[y].Keys)[0]);
      NewestAbove(years, y, Ascending(years[y].Keys)[0]);
    } else {
      EmptyOldest(years);
    }
  }

  lemma EmptyOldest(years: Years)
    requires years == map[]
    ensures Oldest(years) == Newest(years)
  {}

  lemma KeysWithin(s: set<IndexFormat.Period>)
    requires s != {}
    ensures |Ascending(s)| > 0 && Ascending(s)[0] in s && Ascending(s)[|Ascending(s)| - 1] in s
    ensures forall x :: x in s ==> Ascending(s)[0] <= x <= Ascending(s)[|Ascending(s)| - 1]
  {
    SomeKey(s);
    var keys := Ascending(s);
    forall x | x in s ensures keys[0] <= x <= keys[|keys| - 1] {
      assert x in keys;
    }
  }

  /** The exits before the walk drop no match: no entry lies outside the bounds, and none has an unknown key. */
  lemma EarlyExitIsRight(octet: D.Octets, dict: D.State, f: Filter, st: State)
    requires Searchable(st) && IsClear(octet, dict, f.publicKey) && NothingFits(octet, dict, f, st)
    ensures LinearScan(f, dict, Flat(st.years), |Flat(st.years)|) == []
  {
    hide Flat, InInterval, IsClear;
    var items := Flat(st.years);
    forall i | 0 <= i < |items| ensures Picked(f, dict, items[i]) == [] {
      KeySearchIsRightExactly(octet, dict, f.publicKey);
      assert TreatedRightly(octet, dict, f, items[i].entry);
    }
    NonePicked(f, dict, items, |items|);
  }

  /** Without pagination the search yields the entries that match, in search order, unless the interval of the filter
      ends before the first month to search. */
  lemma FoundIsScan(octet: D.Octets, dict: D.State, f: Filter, st: State)
    requires Searchable(st) && IsClear(octet, dict, f.publicKey) && f.size == 0
    requires EndsLateEnough(Oldest(st.years), Newest(st.years), f.interval)
    ensures Found(octet, dict, f, st) == InOrder(f.direction, LinearScan(f, dict, Flat(st.years), |Flat(st.years)|))
  {
    hide Flat, Oldest, Newest, IsClear, IsMatching, Matches, InInterval, Groups, LinearScan;
    var items, key := Flat(st.years), KeyIndex(octet, dict, f);
    if NothingFits(octet, dict, f, st) {
      EarlyExitIsRight(octet, dict, f, st);
    } else {
      var (lo, hi) := Clamped(Oldest(st.years), Newest(st.years), f.interval);
      FoundInRange(octet, dict, f, st, lo, hi);
      forall i | 0 <= i < |items|
        ensures var o := Ordinal(items[i].year, items[i].month);
                (lo <= o <= hi && IsMatching(f, key, items[i].entry) <==>
                 InInterval(f.interval, o) && Matches(f, dict, items[i].entry))
      {
        ItemWithin(st, i);
        ClampedExactly(Oldest(st.years), Newest(st.years), f.interval);
        KeySearchIsRightExactly(octet, dict, f.publicKey);
        assert TreatedRightly(octet, dict, f, items[i].entry);
      }
      HitsArePicked(f, key, dict, items, |items|, lo, hi);
    }
  }

  lemma ItemWithin(st: State, i: nat)
    requires Searchable(st) && i < |Flat(st.years)|
    ensures var item := Flat(st.years)[i];
            Oldest(st.years) <= Ordinal(item.year, item.month) <= Newest(st.years)
  {
    hide Flat, Oldest, Newest;
    FlatSorted(st.years);
    OldestBelow(st.years, Flat(st.years)[i].year, Flat(st.years)[i].month);
    NewestAbove(st.years, Flat(st.years)[i].year, Flat(st.years)[i].month);
  }

  lemma FoundInRange(octet: D.Octets, dict: D.State, f: Filter, st: State, lo: int, hi: int)
    requires Searchable(st) && f.size == 0 && !NothingFits(octet, dict, f, st)
    requires (lo, hi) == Clamped(Oldest(st.years), Newest(st.years), f.interval)
    ensures Found(octet, dict, f, st) ==
              InOrder(f.direction, Hits(f, KeyIndex(octet, dict, f), Between(Flat(st.years), |Flat(st.years)|, lo, hi), 0))
  {
    hide Flat, Oldest, Newest, Hits, Groups, Clamped, NothingFits, KeyIndex;
    var groups, key := SearchGroups(st, f), KeyIndex(octet, dict, f);
    Unpaged(f, key, groups, |groups|);
    WalkFindsRange(f, key, st.years, lo, hi);
  }

  /** An interval that ends too early means no entry, but the search yields the matches of the first month it starts from:
      so its result is right if and only if nothing there matches. */
  lemma EarlyIntervalFindsOneMonth(octet: D.Octets, dict: D.State, f: Filter, st: State)
    requires Searchable(st) && IsClear(octet, dict, f.publicKey) && f.size == 0 && !NothingFits(octet, dict, f, st)
    requires !EndsLateEnough(Oldest(st.years), Newest(st.years), f.interval)
    ensures LinearScan(f, dict, Flat(st.years), |Flat(st.years)|) == []
    ensures var lo := Clamped(Oldest(st.years), Newest(st.years), f.interval).0;
            Found(octet, dict, f, st) == InOrder(f.direction, Hits(f, KeyIndex(octet, dict, f), EntriesAt(st.years, lo), 0))
  {
    hide Flat, Oldest, Newest, Hits, Groups, Matches, IsClear, NothingFits, KeyIndex;
    var items := Flat(st.years);
    forall i | 0 <= i < |items| ensures Picked(f, dict, items[i]) == [] { ItemWithin(st, i); }
    NonePicked(f, dict, items, |items|);
    var lo := Clamped(Oldest(st.years), Newest(st.years), f.interval).0;
    OldestFirst(st.years);
    FoundInRange(octet, dict, f, st, lo, lo);
    EntriesOfMonth(st.years, lo);
  }

  /** An interval that does not end before the first month to search, or that has a first month without entries. */
  predicate RightInterval(interval: Option<(int, int)>, st: State)
    requires forall y :: y in st.years ==> st.years[y] != map[]
  {
    EndsLateEnough(Oldest(st.years), Newest(st.years), interval) ||
    EntriesAt(st.years, Clamped(Oldest(st.years), Newest(st.years), interval).0) == []
  }

  lemma RightIntervalIsScanned(octet: D.Octets, dict: D.State, f: Filter, st: State)
    requires Searchable(st) && IsClear(octet, dict, f.publicKey) && f.size == 0 && RightInterval(f.interval, st)
    ensures Found(octet, dict, f, st) == InOrder(f.direction, LinearScan(f, dict, Flat(st.years), |Flat(st.years)|))
  {
    hide Flat, Oldest, Newest, Found, LinearScan, EntriesAt, IsClear, Clamped, EndsLateEnough;
    if EndsLateEnough(Oldest(st.years), Newest(st.years), f.interval) {
      FoundIsScan(octet, dict, f, st);
    } else if NothingFits(octet, dict, f, st) {
      EarlyExitIsRight(octet, dict, f, st);
      NothingFound(octet, dict, f, st);
    } else {
      EarlyIntervalFindsOneMonth(octet, dict, f, st);
    }
  }

  /** The filter that asks for everything in an interval. */
  function Everything(interval: Option<(int, int)>): Filter {
    ALL.(interval := interval)
  }

  /** For an interval that is not right, everything in it is nothing, but something is found. */
  lemma WrongIntervalFindsMore(octet: D.Octets, dict: D.State, interval: Option<(int, int)>, st: State)
    requires Searchable(st) && !RightInterval(interval, st)
    ensures Found(octet, dict, Everything(interval), st) != []
    ensures LinearScan(Everything(interval), dict, Flat(st.years), |Flat(st.years)|) == []
  {
    hide Flat, Oldest, Newest, Found, LinearScan, EntriesAt, Clamped, EndsLateEnough;
    var f := Everything(interval);
    EarlyIntervalFindsOneMonth(octet, dict, f, st);
    assert Hits(f, KeyIndex(octet, dict, f), EntriesAt(st.years, Clamped(Oldest(st.years), Newest(st.years), interval).0), 0) != [];
  }

  /** An interval is searched rightly, whatever else the filter asks for, if and only if it does not end before the first
      month to search or that month has no entries. */
  lemma IntervalIsRightExactly(octet: D.Octets, dict: D.State, interval: Option<(int, int)>, st: State)
    requires Searchable(st) && D.Bijective(octet, dict)
    ensures (forall f: Filter :: f.size == 0 && f.interval == interval ==>
               Found(octet, dict, f, st) == InOrder(f.direction, LinearScan(f, dict, Flat(st.years), |Flat(st.years)|))) <==>
            RightInterval(interval, st)
  {
    hide Flat, Found, LinearScan, RightInterval, D.Bijective, IsClear;
    if RightInterval(interval, st) {
      forall f: Filter | f.size == 0 && f.interval == interval
        ensures Found(octet, dict, f, st) == InOrder(f.direction, LinearScan(f, dict, Flat(st.years), |Flat(st.years)|))
      {
        BijectiveIsClear(octet, dict, f.publicKey);
        RightIntervalIsScanned(octet, dict, f, st);
      }
    } else {
      WrongIntervalFindsMore(octet, dict, interval, st);
    }
  }

  lemma NothingFound(octet: D.Octets, dict: D.State, f: Filter, st: State)
    requires Searchable(st) && NothingFits(octet, dict, f, st)
    ensures Found(octet, dict, f, st) == []
  {}

  /** Searching in the other direction turns the result round. */
  lemma DirectionsReverse(octet: D.Octets, dict: D.State, f: Filter, st: State)
    requires Searchable(st) && f.size == 0
    ensures Found(octet, dict, f.(direction := DESC), st) == Reverse(Found(octet, dict, f.(direction := ASC), st))
  {
    hide Flat, Oldest, Newest, Hits, Groups, Clamped;
    var up, down := f.(direction := ASC), f.(direction := DESC);
    if !NothingFits(octet, dict, f, st) {
      var (lo, hi) := Clamped(Oldest(st.years), Newest(st.years), f.interval);
      FoundInRange(octet, dict, up, st, lo, hi);
      FoundInRange(octet, dict, down, st, lo, hi);
      DirectionDoesNotMatter(f, KeyIndex(octet, dict, f), Between(Flat(st.years), |Flat(st.years)|, lo, hi), 0);
    }
  }

  lemma {:induction false} DirectionDoesNotMatter(f: Filter, key: nat, list: seq<Entry>, i: nat)
    requires i <= |list|
    ensures Hits(f.(direction := DESC), key, list, i) == Hits(f.(direction := ASC), key, list, i)
    decreases |list| - i
  {
    if i < |list| { DirectionDoesNotMatter(f, key, list, i + 1); }
  }

  // ---------------------------------------------------------------- searches one can check by hand

  /** Numbers of entries as they stand in a list. */
  function NumbersOf(list: seq<Entry>): (numbers: seq<nat>)
    ensures |numbers| == |list|
  {
    seq(|list|, i requires 0 <= i < |list| => list[i].transactionNr)
  }

  lemma {:induction false} EverythingHits(f: Filter, list: seq<Entry>, i: nat)
    requires f.minNr == f.maxNr == 0 && f.transactionType == None && f.communityIndex == 0 && i <= |list|
    ensures Hits(f, 0, list, i) == NumbersOf(list)[i..]
    decreases |list| - i
  {
    if i < |list| { EverythingHits(f, list, i + 1); }
  }

  /** Asking for everything in one month of the index gives the numbers of the month, ascending as they were added, or the
      other way round. */
  lemma OneMonthIsFound(octet: D.Octets, dict: D.State, st: State, o: int)
    requires Searchable(st) && Oldest(st.years) <= o <= Newest(st.years)
    ensures var month := NumbersOf(EntriesAt(st.years, o)); var f := Everything(Some((o, o)));
            Found(octet, dict, f, st) == month && Found(octet, dict, f.(direction := DESC), st) == Reverse(month)
  {
    hide Flat, Oldest, Newest, Hits, Groups, EntriesAt;
    var f := Everything(Some((o, o)));
    FoundInRange(octet, dict, f, st, o, o);
    EntriesOfMonth(st.years, o);
    EverythingHits(f, EntriesAt(st.years, o), 0);
    DirectionsReverse(octet, dict, f, st);
  }

  function ItemNumbers(items: seq<Item>, n: nat): seq<nat>
    requires n <= |items|
  {
    seq(n, i requires 0 <= i < n => items[i].entry.transactionNr)
  }

  ghost predicate NumberedOnce(items: seq<Item>) {
    forall i, j :: 0 <= i < j < |items| ==> items[i].entry.transactionNr != items[j].entry.transactionNr
  }

  ghost predicate HasItem(items: seq<Item>, n: nat, k: nat)
    requires k <= |items|
  {
    exists i :: 0 <= i < k && items[i].entry.transactionNr == n
  }

  /** Asking for everything gives all numbers, oldest month first. */
  lemma EverythingIsFound(octet: D.Octets, dict: D.State, st: State)
    requires Searchable(st)
    ensures Found(octet, dict, ALL, st) == ItemNumbers(Flat(st.years), |Flat(st.years)|)
  {
    hide Flat, Oldest, Newest, Found;
    assert EndsLateEnough(Oldest(st.years), Newest(st.years), None);
    FoundIsScan(octet, dict, ALL, st);
    AllPicked(dict, Flat(st.years), |Flat(st.years)|);
  }

  lemma {:induction false} AllPicked(dict: D.State, items: seq<Item>, n: nat)
    requires n <= |items|
    ensures LinearScan(ALL, dict, items, n) == ItemNumbers(items, n)
  {
    if n > 0 { AllPicked(dict, items, n - 1); }
  }

  /** Asking for one number finds it if and only if an entry has it, and nothing else. */
  lemma OneNumberIsFound(octet: D.Octets, dict: D.State, st: State, n: nat)
    requires Searchable(st) && n > 0 && NumberedOnce(Flat(st.years))
    ensures Found(octet, dict, ALL.(minNr := n, maxNr := n), st) ==
              if HasItem(Flat(st.years), n, |Flat(st.years)|) then [n] else []
  {
    hide Flat, Oldest, Newest, Found;
    var f, items := ALL.(minNr := n, maxNr := n), Flat(st.years);
    assert EndsLateEnough(Oldest(st.years), Newest(st.years), None);
    FoundIsScan(octet, dict, f, st);
    NumberPicked(dict, items, n, |items|);
  }

  lemma {:induction false} NumberPicked(dict: D.State, items: seq<Item>, n: nat, k: nat)
    requires k <= |items| && n > 0 && NumberedOnce(items)
    ensures LinearScan(ALL.(minNr := n, maxNr := n), dict, items, k) == if HasItem(items, n, k) then [n] else []
  {
    if k > 0 { NumberPicked(dict, items, n, k - 1); }
  }
}
