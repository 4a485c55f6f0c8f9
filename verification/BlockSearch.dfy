/** Searching one block, src/cache/BlockIndex.cpp: findTransactions and countTransactions walk the months of an interval
    and the entries of each month in search order, with pagination. */
module BlockSearch {
  import opened ByteCodec
  import opened YearMonthIndex
  import IndexFormat
  import IndexCache
  import D = Dictionary

  datatype Direction = ASC | DESC

  /** A number 0, type None and key "" do not filter. The coin community is given by its index, 0 for none. The interval
      is one of months, counted by Ordinal. Pages are numbered from 1, and size 0 stands for no pagination. */
  datatype Filter = Filter(minNr: nat, maxNr: nat, transactionType: Option<byte>, communityIndex: int, publicKey: string,
                           interval: Option<(int, int)>, direction: Direction, page: int, size: nat)

  // ---------------------------------------------------------------- months

  function Ordinal(year: int, month: int): int {
    12 * year + month - 1
  }

  /** The entries of the month with an ordinal, none if there is no such month. */
  function EntriesAt(years: Years, o: int): seq<Entry> {
    if -0x8000 <= o / 12 < 0x8000 then ListAt(years, o / 12, o % 12 + 1) else []
  }

  function Oldest(years: Years): int
    requires forall y :: y in years ==> years[y] != map[]
  {
    if years == map[] then Ordinal(0, 0) else
      SomeKey(years.Keys);
      var y := Ascending(years.Keys)[0];
      SomeKey(years[y].Keys);
      Ordinal(y, Ascending(years[y].Keys)[0])
  }

  function Newest(years: Years): int
    requires forall y :: y in years ==> years[y] != map[]
  {
    if years == map[] then Ordinal(0, 0) else
      SomeKey(years.Keys);
      var y := Ascending(years.Keys)[|Ascending(years.Keys)| - 1];
      SomeKey(years[y].Keys);
      Ordinal(y, Ascending(years[y].Keys)[|Ascending(years[y].Keys)| - 1])
  }

  lemma SomeKey(s: set<IndexFormat.Period>)
    requires s != {}
    ensures |Ascending(s)| > 0
  {
    assert Least(s) in Ascending(s);
  }

  /** filteredTimepointInterval: the months of the index, cut by those of the filter. */
  function Clamped(oldest: int, newest: int, interval: Option<(int, int)>): (int, int) {
    match interval
    case None => (oldest, newest)
    case Some((start, end)) =>
      var lo := if oldest < start then start else oldest;
      (lo, if newest > end then (if lo > end then lo else end) else newest)
  }

  predicate InInterval(interval: Option<(int, int)>, o: int) {
    interval.Some? ==> interval.value.0 <= o <= interval.value.1
  }

  /** The months searched are those of the index that lie in the interval of the filter, unless that interval ends before
      the first month to search: then this one is searched nevertheless. */
  lemma ClampedExactly(oldest: int, newest: int, interval: Option<(int, int)>)
    requires oldest <= newest
    ensures var (lo, hi) := Clamped(oldest, newest, interval);
            (forall o :: oldest <= o <= newest ==> (lo <= o <= hi <==> InInterval(interval, o))) <==>
            EndsLateEnough(oldest, newest, interval)
  {
    var (lo, hi) := Clamped(oldest, newest, interval);
    if !EndsLateEnough(oldest, newest, interval) {
      assert oldest <= lo <= newest && lo <= lo <= hi && !InInterval(interval, lo);
    }
  }

  /** For an interval that does not end before it starts: it does not end before the oldest month. */
  predicate EndsLateEnough(oldest: int, newest: int, interval: Option<(int, int)>) {
    interval.Some? ==>
      var (start, end) := interval.value;
      (end >= oldest && end >= start) || start > newest
  }

  // ---------------------------------------------------------------- matching

  /** isMatchingFilter, with the index of the public key, 0 for none. */
  predicate IsMatching(f: Filter, keyIndex: nat, e: Entry) {
    (f.transactionType.Some? ==> f.transactionType.value == e.transactionType) &&
    (f.communityIndex != 0 ==> f.communityIndex == e.coinCommunityIdIndex) &&
    (f.minNr != 0 ==> f.minNr <= e.transactionNr) &&
    (f.maxNr != 0 ==> e.transactionNr <= f.maxNr) &&
    (keyIndex != 0 ==> keyIndex in e.addressIndices)
  }

  method IsMatchingFilter(e: Entry, f: Filter, keyIndex: nat) returns (use: bool)
    ensures use <==> IsMatching(f, keyIndex, e)
  {
    if f.transactionType.Some? && f.transactionType.value != e.transactionType { return false; }
    if f.communityIndex != 0 && f.communityIndex != e.coinCommunityIdIndex { return false; }
    if f.minNr != 0 && f.minNr > e.transactionNr { return false; }
    if f.maxNr != 0 && f.maxNr < e.transactionNr { return false; }
    if keyIndex != 0 {
      var found := false;
      for i := 0 to |e.addressIndices|
        invariant !found && keyIndex !in e.addressIndices[..i]
      {
        if e.addressIndices[i] == keyIndex {
          found := true;
          break;
        }
      }
      if !found { return false; }
    }
    return true;
  }

  /** What a match means: every part of the filter that is set holds of the entry. The address numbers of the entry stand for
      strings of the dictionary, and a key is looked for among these. */
  ghost predicate Matches(f: Filter, dict: D.State, e: Entry) {
    (f.minNr == 0 || e.transactionNr >= f.minNr) && (f.maxNr == 0 || e.transactionNr <= f.maxNr) &&
    (f.transactionType == None || f.transactionType == Some(e.transactionType)) &&
    (f.communityIndex == 0 || e.coinCommunityIdIndex == f.communityIndex) &&
    (f.publicKey != "" ==> exists a: nat :: a in e.addressIndices && a in dict.file && dict.file[a] == f.publicKey)
  }

  const ALL := Filter(0, 0, None, 0, "", None, ASC, 1, 0)

  /** What single parts of a filter pick: the numbers from one to another, those of a type, those of a community. */
  lemma PartsPick(dict: D.State, e: Entry, lo: nat, hi: nat, transactionType: byte, community: int)
    requires lo > 0 && hi > 0 && community != 0
    ensures IsMatching(ALL, 0, e) && Matches(ALL, dict, e)
    ensures IsMatching(ALL.(minNr := lo, maxNr := hi), 0, e) <==> lo <= e.transactionNr <= hi
    ensures IsMatching(ALL.(transactionType := Some(transactionType)), 0, e) <==> e.transactionType == transactionType
    ensures IsMatching(ALL.(communityIndex := community), 0, e) <==> e.coinCommunityIdIndex == community
    ensures IsMatching(ALL, hi, e) <==> exists i :: 0 <= i < |e.addressIndices| && e.addressIndices[i] == hi
  {}

  function KeyIndex(octet: D.Octets, dict: D.State, f: Filter): nat {
    if f.publicKey == "" then 0 else D.Lookup(octet, dict, f.publicKey)
  }

  /** Whether the search takes or leaves an entry as the filter means it. */
  ghost predicate TreatedRightly(octet: D.Octets, dict: D.State, f: Filter, e: Entry) {
    var key := KeyIndex(octet, dict, f);
    if f.publicKey != "" && key == 0 then !Matches(f, dict, e) else IsMatching(f, key, e) <==> Matches(f, dict, e)
  }

  /** The dictionary has no other index for a key than the one it reports. */
  ghost predicate IsClear(octet: D.Octets, dict: D.State, key: string) {
    key != "" ==> forall a :: a in dict.file && dict.file[a] == key ==> a != 0 && D.Lookup(octet, dict, key) == a
  }

  /** Looking for the index of a key finds exactly the entries with the key, and a key that is not found is in no entry,
      if and only if the dictionary has no second index for it. */
  lemma KeySearchIsRightExactly(octet: D.Octets, dict: D.State, key: string)
    ensures (forall f: Filter, e: Entry :: f.publicKey == key ==> TreatedRightly(octet, dict, f, e)) <==> IsClear(octet, dict, key)
  {
    if !IsClear(octet, dict, key) {
      var a :| a in dict.file && dict.file[a] == key && !(a != 0 && D.Lookup(octet, dict, key) == a);
      var f, e := Filter(0, 0, None, 0, key, None, ASC, 1, 0), Entry(0, [a], 0, 0);
      assert a in e.addressIndices && Matches(f, dict, e);
      assert !TreatedRightly(octet, dict, f, e);
    }
  }

  lemma BijectiveIsClear(octet: D.Octets, dict: D.State, key: string)
    requires D.Bijective(octet, dict)
    ensures IsClear(octet, dict, key)
  {}

  // ---------------------------------------------------------------- scanning with pagination

  /** The numbers of the matching entries from the i-th on. */
  function Hits(f: Filter, key: nat, list: seq<Entry>, i: nat): seq<nat>
    requires i <= |list|
    decreases |list| - i
  {
    if i == |list| then [] else Hit(f, key, list[i]) + Hits(f, key, list, i + 1)
  }

  function Hit(f: Filter, key: nat, e: Entry): (r: seq<nat>)
    ensures |r| <= 1
  {
    if IsMatching(f, key, e) then [e.transactionNr] else []
  }

  predicate HasCapacityLeft(size: nat, count: nat) {
    size == 0 || count < size
  }

  function SkipEntriesCount(f: Filter): int {
    (f.page - 1) * f.size
  }

  /** The result so far and the matches seen so far. */
  datatype Scan = Scan(result: seq<nat>, cursor: nat)

  function Seen(f: Filter, key: nat, s: Scan, e: Entry): Scan {
    if !IsMatching(f, key, e) then s
    else Scan(if s.cursor >= SkipEntriesCount(f) then s.result + [e.transactionNr] else s.result, s.cursor + 1)
  }

  /** One month. The capacity is only looked at behind an entry. */
  function ScanList(f: Filter, key: nat, list: seq<Entry>, i: nat, s: Scan): Scan
    requires i <= |list|
    decreases |list| - i
  {
    if i == |list| then s else
      var next := Seen(f, key, s, list[i]);
      if HasCapacityLeft(f.size, |next.result|) then ScanList(f, key, list, i + 1, next) else next
  }

  /** The first n months; nothing ends the walk over them. */
  function ScanGroups(f: Filter, key: nat, groups: seq<seq<Entry>>, n: nat): Scan
    requires n <= |groups|
  {
    if n == 0 then Scan([], 0) else ScanList(f, key, groups[n - 1], 0, ScanGroups(f, key, groups, n - 1))
  }

  /** All matches of the first n months. */
  function GroupHits(f: Filter, key: nat, groups: seq<seq<Entry>>, n: nat): seq<nat>
    requires n <= |groups|
  {
    if n == 0 then [] else GroupHits(f, key, groups, n - 1) + Hits(f, key, groups[n - 1], 0)
  }

  lemma {:induction false} ListUnpaged(f: Filter, key: nat, list: seq<Entry>, i: nat, s: Scan)
    requires f.size == 0 && i <= |list|
    ensures ScanList(f, key, list, i, s).result == s.result + Hits(f, key, list, i)
    decreases |list| - i
  {
    if i < |list| { ListUnpaged(f, key, list, i + 1, Seen(f, key, s, list[i])); }
  }

  lemma {:induction false} Unpaged(f: Filter, key: nat, groups: seq<seq<Entry>>, n: nat)
    requires f.size == 0 && n <= |groups|
    ensures ScanGroups(f, key, groups, n).result == GroupHits(f, key, groups, n)
  {
    if n > 0 {
      Unpaged(f, key, groups, n - 1);
      ListUnpaged(f, key, groups[n - 1], 0, ScanGroups(f, key, groups, n - 1));
    }
  }

  /** What is left behind the first k elements. */
  function Dropped(s: seq<nat>, k: int): (r: seq<nat>)
    ensures r != [] ==> |s| >= k
  {
    if k <= 0 then s else if |s| <= k then [] else s[k..]
  }

  function FirstOf(s: seq<nat>, n: nat): (r: seq<nat>)
    ensures r <= s && |r| <= n && (|r| < n ==> r == s)
  {
    if |s| <= n then s else s[..n]
  }

  lemma FirstOfMore(s: seq<nat>, t: seq<nat>, n: nat)
    requires |s| >= n
    ensures FirstOf(s + t, n) == FirstOf(s, n)
  {}

  /** The matches of the first n months behind those of the pages before. */
  function PageHits(f: Filter, key: nat, groups: seq<seq<Entry>>, n: nat): seq<nat>
    requires n <= |groups|
  {
    Dropped(GroupHits(f, key, groups, n), SkipEntriesCount(f))
  }

  /** The matches that months add when the page is full before them: the first entry of each, if it matches. */
  function Overshoot(f: Filter, key: nat, groups: seq<seq<Entry>>, n: nat): seq<nat>
    requires n <= |groups|
  {
    if n == 0 then [] else
      Overshoot(f, key, groups, n - 1) +
      if |PageHits(f, key, groups, n - 1)| >= f.size && groups[n - 1] != [] then Hit(f, key, groups[n - 1][0]) else []
  }

  lemma DroppedConcat(s: seq<nat>, t: seq<nat>, k: int)
    ensures Dropped(s + t, k) == Dropped(s, k) + Dropped(t, k - |s|)
  {}

  lemma {:induction false} ListPaged(f: Filter, key: nat, list: seq<Entry>, i: nat, s: Scan)
    requires f.size > 0 && i <= |list| && |s.result| < f.size && (s.result != [] ==> s.cursor >= SkipEntriesCount(f))
    ensures var all := s.result + Dropped(Hits(f, key, list, i), SkipEntriesCount(f) - s.cursor);
            var s' := ScanList(f, key, list, i, s);
            s'.result == FirstOf(all, f.size) &&
            if |all| < f.size then s'.cursor == s.cursor + |Hits(f, key, list, i)| else s'.cursor >= SkipEntriesCount(f)
    decreases |list| - i
  {
    hide IsMatching, SkipEntriesCount, Hit, Seen, Dropped;
    var k := SkipEntriesCount(f);
    if i == |list| {
      NothingDropped(k - s.cursor);
    } else {
      var next := Seen(f, key, s, list[i]);
      SeenOnPage(f, key, s, list[i]);
      DroppedConcat(Hit(f, key, list[i]), Hits(f, key, list, i + 1), k - s.cursor);
      assert next.result + Dropped(Hits(f, key, list, i + 1), k - next.cursor) ==
             s.result + Dropped(Hits(f, key, list, i), k - s.cursor);
      if |next.result| < f.size { ListPaged(f, key, list, i + 1, next); }
    }
  }

  lemma NothingDropped(k: int)
    ensures Dropped([], k) == []
  {}

  lemma SeenOnPage(f: Filter, key: nat, s: Scan, e: Entry)
    requires s.result != [] ==> s.cursor >= SkipEntriesCount(f)
    ensures var next, k := Seen(f, key, s, e), SkipEntriesCount(f);
            next.result == s.result + Dropped(Hit(f, key, e), k - s.cursor) && next.cursor == s.cursor + |Hit(f, key, e)| &&
            |next.result| <= |s.result| + 1 && (next.result != [] ==> next.cursor >= k)
  {
    hide IsMatching, SkipEntriesCount;
  }

  lemma FullList(f: Filter, key: nat, list: seq<Entry>, s: Scan)
    requires f.size > 0 && |s.result| >= f.size && s.cursor >= SkipEntriesCount(f)
    ensures var s' := ScanList(f, key, list, 0, s);
            s'.result == s.result + (if list != [] then Hit(f, key, list[0]) else []) && s'.cursor >= SkipEntriesCount(f)
  {
    hide IsMatching, SkipEntriesCount;
  }

  lemma {:induction false} NoOvershoot(f: Filter, key: nat, groups: seq<seq<Entry>>, n: nat)
    requires n <= |groups| && |PageHits(f, key, groups, n)| < f.size
    ensures Overshoot(f, key, groups, n) == []
  {
    hide SkipEntriesCount, Hits;
    if n > 0 {
      DroppedConcat(GroupHits(f, key, groups, n - 1), Hits(f, key, groups[n - 1], 0), SkipEntriesCount(f));
      NoOvershoot(f, key, groups, n - 1);
    }
  }

  /** A page of a block holds the next matches, and behind a full page one more for every further month whose first entry
      matches. */
  lemma {:induction false} PageExactly(f: Filter, key: nat, groups: seq<seq<Entry>>, n: nat)
    requires f.size > 0 && n <= |groups|
    ensures var s, hits := ScanGroups(f, key, groups, n), PageHits(f, key, groups, n);
            s.result == FirstOf(hits, f.size) + Overshoot(f, key, groups, n) &&
            if |hits| < f.size then s.cursor == |GroupHits(f, key, groups, n)| else s.cursor >= SkipEntriesCount(f)
  {
    hide Hits, Hit, ScanList, SkipEntriesCount, HasCapacityLeft, Dropped, FirstOf;
    if n == 0 {
      NothingDropped(SkipEntriesCount(f));
    } else {
      PageExactly(f, key, groups, n - 1);
      var before, list, k := ScanGroups(f, key, groups, n - 1), groups[n - 1], SkipEntriesCount(f);
      DroppedConcat(GroupHits(f, key, groups, n - 1), Hits(f, key, list, 0), k);
      if |PageHits(f, key, groups, n - 1)| < f.size {
        NoOvershoot(f, key, groups, n - 1);
        ListPaged(f, key, list, 0, before);
      } else {
        FullList(f, key, list, before);
        FirstOfMore(PageHits(f, key, groups, n - 1), Dropped(Hits(f, key, list, 0), k - |GroupHits(f, key, groups, n - 1)|), f.size);
      }
    }
  }

  // ---------------------------------------------------------------- the walk over the months

  function Reverse<T>(s: seq<T>): (r: seq<T>)
    ensures |r| == |s| && forall i :: 0 <= i < |s| ==> r[i] == s[|s| - 1 - i]
  {
    seq(|s|, i requires 0 <= i < |s| => s[|s| - 1 - i])
  }

  function Directed(direction: Direction, list: seq<Entry>): (r: seq<Entry>)
    ensures |r| == |list|
  {
    if direction == ASC then list else Reverse(list)
  }

  function MonthCount(lo: int, hi: int): nat {
    if lo <= hi then hi - lo + 1 else 0
  }

  /** The months from lo to hi in search order, each with its entries in search order. */
  function Groups(years: Years, direction: Direction, lo: int, hi: int): (groups: seq<seq<Entry>>)
    ensures |groups| == MonthCount(lo, hi)
  {
    seq(MonthCount(lo, hi), k => Directed(direction, EntriesAt(years, if direction == ASC then lo + k else hi - k)))
  }

  predicate OutOfBounds(f: Filter, st: State) {
    (f.minNr != 0 && f.minNr > st.max) || (f.maxNr != 0 && f.maxNr < st.min)
  }

  predicate NothingFits(octet: D.Octets, dict: D.State, f: Filter, st: State) {
    OutOfBounds(f, st) || (f.publicKey != "" && KeyIndex(octet, dict, f) == 0)
  }

  function SearchGroups(st: State, f: Filter): seq<seq<Entry>>
    requires forall y :: y in st.years ==> st.years[y] != map[]
  {
    var (lo, hi) := Clamped(Oldest(st.years), Newest(st.years), f.interval);
    Groups(st.years, f.direction, lo, hi)
  }

  function Found(octet: D.Octets, dict: D.State, f: Filter, st: State): seq<nat>
    requires forall y :: y in st.years ==> st.years[y] != map[]
  {
    if NothingFits(octet, dict, f, st) then [] else
      var groups := SearchGroups(st, f);
      ScanGroups(f, KeyIndex(octet, dict, f), groups, |groups|).result
  }

  method FindTransactions(index: IndexCache.BlockIndex, f: Filter, dict: D.Dictionary) returns (result: seq<nat>)
    requires forall y :: y in index.years ==> index.years[y] != map[]
    ensures result == Found(dict.octet, dict.St(), f, index.St())
  {
    hide Oldest, Newest, Clamped, EntriesAt, ScanList, Groups, Directed;
    if OutOfBounds(f, index.St()) { return []; }
    var publicKeyIndex := 0;
    if f.publicKey != "" {
      var found := dict.GetIndexForString(f.publicKey);
      if found.Err? { return []; }
      publicKeyIndex := found.value;
    }
    var (lo, hi) := Clamped(Oldest(index.years), Newest(index.years), f.interval);
    ghost var groups := Groups(index.years, f.direction, lo, hi);
    var s := Scan([], 0);
    for k := 0 to MonthCount(lo, hi)
      invariant s == ScanGroups(f, publicKeyIndex, groups, k)
    {
      var list := EntriesAt(index.years, if f.direction == ASC then lo + k else hi - k);
      GroupIs(index.years, f.direction, lo, hi, k);
      s := ScanMonth(f, publicKeyIndex, list, s);
    }
    return s.result;
  }

  method ScanMonth(f: Filter, key: nat, list: seq<Entry>, s: Scan) returns (s': Scan)
    ensures s' == ScanList(f, key, Directed(f.direction, list), 0, s)
  {
    hide IsMatching;
    s' := s;
    for i := 0 to |list|
      invariant ScanList(f, key, Directed(f.direction, list), i, s') == ScanList(f, key, Directed(f.direction, list), 0, s)
    {
      var e := list[if f.direction == ASC then i else |list| - 1 - i];
      var use := IsMatchingFilter(e, f, key);
      if use {
        s' := Scan(if s'.cursor >= SkipEntriesCount(f) then s'.result + [e.transactionNr] else s'.result, s'.cursor + 1);
      }
      if !HasCapacityLeft(f.size, |s'.result|) { return s'; }
    }
  }

  method CountTransactions(index: IndexCache.BlockIndex, f: Filter, dict: D.Dictionary) returns (count: nat)
    requires forall y :: y in index.years ==> index.years[y] != map[]
    ensures count == |Found(dict.octet, dict.St(), f.(size := 0), index.St())|
  {
    hide Oldest, Newest, Clamped, ListAt, Groups, Hits, IsMatching, Directed;
    if OutOfBounds(f, index.St()) { return 0; }
    var publicKeyIndex := 0;
    if f.publicKey != "" {
      var found := dict.GetIndexForString(f.publicKey);
      if found.Err? { return 0; }
      publicKeyIndex := found.value;
    }
    var (lo, hi) := Clamped(Oldest(index.years), Newest(index.years), f.interval);
    ghost var g := f.(size := 0);
    ghost var groups := Groups(index.years, f.direction, lo, hi);
    count := 0;
    for k := 0 to MonthCount(lo, hi)
      invariant count == |GroupHits(g, publicKeyIndex, groups, k)|
    {
      var list := EntriesAt(index.years, if f.direction == ASC then lo + k else hi - k);
      GroupIs(index.years, f.direction, lo, hi, k);
      var n := CountMonth(f, publicKeyIndex, list);
      DirectedHits(g, publicKeyIndex, f.direction, list);
      SizeDoesNotMatter(f, publicKeyIndex, list, 0);
      count := count + n;
    }
    Unpaged(g, publicKeyIndex, groups, |groups|);
  }

  lemma GroupIs(years: Years, direction: Direction, lo: int, hi: int, k: nat)
    requires k < MonthCount(lo, hi)
    ensures Groups(years, direction, lo, hi)[k] ==
              Directed(direction, EntriesAt(years, if direction == ASC then lo + k else hi - k))
  {
    hide EntriesAt, Directed;
  }

  method CountMonth(f: Filter, key: nat, list: seq<Entry>) returns (count: nat)
    ensures count == |Hits(f, key, list, 0)|
  {
    hide IsMatching;
    count := 0;
    for i := 0 to |list|
      invariant count + |Hits(f, key, list, i)| == |Hits(f, key, list, 0)|
    {
      var use := IsMatchingFilter(list[i], f, key);
      if use { count := count + 1; }
    }
  }

  lemma {:induction false} SizeDoesNotMatter(f: Filter, key: nat, list: seq<Entry>, i: nat)
    requires i <= |list|
    ensures Hits(f.(size := 0), key, list, i) == Hits(f, key, list, i)
    decreases |list| - i
  {
    if i < |list| { SizeDoesNotMatter(f, key, list, i + 1); }
  }

  // ---------------------------------------------------------------- search order

  lemma {:induction false} HitsConcat(f: Filter, key: nat, a: seq<Entry>, b: seq<Entry>, i: nat)
    requires i <= |a|
    ensures Hits(f, key, a + b, i) == Hits(f, key, a, i) + Hits(f, key, b, 0)
    decreases |a| - i
  {
    if i < |a| {
      HitsConcat(f, key, a, b, i + 1);
    } else {
      HitsFromMiddle(f, key, a, b, 0);
    }
  }

  lemma {:induction false} HitsFromMiddle(f: Filter, key: nat, a: seq<Entry>, b: seq<Entry>, i: nat)
    requires i <= |b|
    ensures Hits(f, key, a + b, |a| + i) == Hits(f, key, b, i)
    decreases |b| - i
  {
    if i < |b| { HitsFromMiddle(f, key, a, b, i + 1); }
  }

  lemma ReverseConcat<T>(a: seq<T>, b: seq<T>)
    ensures Reverse(a + b) == Reverse(b) + Reverse(a)
  {}

  lemma {:induction false} ReversedHits(f: Filter, key: nat, list: seq<Entry>)
    ensures Hits(f, key, Reverse(list), 0) == Reverse(Hits(f, key, list, 0))
  {
    if list != [] {
      var rest, e := list[1..], list[0];
      ReversedHits(f, key, rest);
      assert list == [e] + rest;
      HitsConcat(f, key, [e], rest, 0);
      ReverseConcat([e], rest);
      HitsConcat(f, key, Reverse(rest), Reverse([e]), 0);
      OneHit(f, key, e);
      ReverseConcat(Hit(f, key, e), Hits(f, key, rest, 0));
    }
  }

  lemma OneHit(f: Filter, key: nat, e: Entry)
    ensures Hits(f, key, [e], 0) == Hit(f, key, e) && Reverse([e]) == [e] && Reverse(Hit(f, key, e)) == Hit(f, key, e)
  {
    assert Hits(f, key, [e], 1) == [];
  }

  lemma DirectedHits(f: Filter, key: nat, direction: Direction, list: seq<Entry>)
    ensures Hits(f, key, Directed(direction, list), 0) ==
              if direction == ASC then Hits(f, key, list, 0) else Reverse(Hits(f, key, list, 0))
  {
    ReversedHits(f, key, list);
  }
}
