/** Searching the whole chain, src/blockchain/FileBased.cpp: findAll walks over the blocks in search order, asks every block
    for what is still missing on the page, and stops at the first empty block. */
module ChainSearch {
  import opened YearMonthIndex
  import opened BlockSearch
  import opened LinearSearch
  import opened ByteCodec
  import IndexCache
  import D = Dictionary

  ghost predicate Tidied(st: State) {
    forall y :: y in st.years ==> st.years[y] != map[]
  }

  /** getTransactionsCount() == 0. */
  predicate IsEmpty(st: State) {
    st.max == 0 && st.min == 0
  }

  /** The number of blocks visited: all, or those before the first empty one. */
  function VisitedCount(order: seq<State>, k: nat): (n: nat)
    requires k <= |order|
    ensures k <= n <= |order| && (n < |order| ==> IsEmpty(order[n])) && forall i :: k <= i < n ==> !IsEmpty(order[i])
    decreases |order| - k
  {
    if k == |order| || IsEmpty(order[k]) then k else VisitedCount(order, k + 1)
  }

  /** All matches in the first n blocks, each block without pagination. */
  function ChainHits(octet: D.Octets, dict: D.State, f: Filter, order: seq<State>, n: nat): seq<nat>
    requires n <= |order| && forall i :: 0 <= i < |order| ==> Tidied(order[i])
  {
    if n == 0 then [] else
      ChainHits(octet, dict, f, order, n - 1) + Found(octet, dict, f.(size := 0), order[n - 1])
  }

  /** The first n elements; 0 stands for no limit. */
  function Limited(s: seq<nat>, n: nat): seq<nat> {
    if n == 0 then s else FirstOf(s, n)
  }

  lemma {:induction false} GroupHitsAnySize(f: Filter, key: nat, groups: seq<seq<Entry>>, n: nat)
    requires n <= |groups|
    ensures GroupHits(f.(size := 0), key, groups, n) == GroupHits(f, key, groups, n)
  {
    hide Hits;
    if n > 0 {
      GroupHitsAnySize(f, key, groups, n - 1);
      SizeDoesNotMatter(f, key, groups[n - 1], 0);
    }
  }

  /** What is on the page after the first n blocks. Every block skips the pages before as if they were its own, counted in
      pages of what is still missing. */
  function ChainPage(octet: D.Octets, dict: D.State, f: Filter, order: seq<State>, n: nat): seq<nat>
    requires n <= |order| && forall i :: 0 <= i < |order| ==> Tidied(order[i])
  {
    if n == 0 then [] else
      var before := ChainPage(octet, dict, f, order, n - 1);
      if f.size > 0 && |before| >= f.size then before
      else
        var left := if f.size > 0 then f.size - |before| else 0;
        Limited(before + Dropped(Found(octet, dict, f.(size := 0), order[n - 1]), (f.page - 1) * left), f.size)
  }

  /** A page of a block begins with the next matches of the block; only a full page has more behind them. */
  lemma BlockPage(octet: D.Octets, dict: D.State, f: Filter, st: State)
    requires f.size > 0 && Tidied(st)
    ensures var hits := Dropped(Found(octet, dict, f.(size := 0), st), SkipEntriesCount(f));
            var page := Found(octet, dict, f, st);
            FirstOf(hits, f.size) <= page && (|hits| < f.size ==> page == hits)
  {
    hide SearchGroups, ScanGroups, GroupHits, Overshoot, SkipEntriesCount;
    if !NothingFits(octet, dict, f, st) {
      var groups, key := SearchGroups(st, f), KeyIndex(octet, dict, f);
      assert SearchGroups(st, f.(size := 0)) == groups by { GroupsAnySize(st, f); }
      Unpaged(f.(size := 0), key, groups, |groups|);
      GroupHitsAnySize(f, key, groups, |groups|);
      PageExactly(f, key, groups, |groups|);
      if |PageHits(f, key, groups, |groups|)| < f.size { NoOvershoot(f, key, groups, |groups|); }
    }
  }

  lemma GroupsAnySize(st: State, f: Filter)
    requires Tidied(st)
    ensures SearchGroups(st, f.(size := 0)) == SearchGroups(st, f)
  {
    hide Groups, Oldest, Newest;
  }

  // ---------------------------------------------------------------- the loops

  function States(blocks: seq<IndexCache.BlockIndex>): (s: seq<State>)
    reads set i | 0 <= i < |blocks| :: blocks[i]
    ensures |s| == |blocks| && forall i :: 0 <= i < |blocks| ==> s[i] == blocks[i].St()
  {
    seq(|blocks|, i requires 0 <= i < |blocks| reads set i | 0 <= i < |blocks| :: blocks[i] => blocks[i].St())
  }

  function BlockOrder(direction: Direction, states: seq<State>): (order: seq<State>)
    ensures |order| == |states|
  {
    if direction == ASC then states else Reverse(states)
  }

  /** Block numbers start at 1 and blocks[i] is block i + 1. The result is given by transaction numbers. */
  method FindAll(blocks: seq<IndexCache.BlockIndex>, f: Filter, dict: D.Dictionary) returns (result: seq<nat>)
    requires |blocks| > 0 && forall i :: 0 <= i < |blocks| ==> Tidied(blocks[i].St())
    ensures var order := BlockOrder(f.direction, States(blocks));
            result == ChainPage(dict.octet, dict.St(), f, order, VisitedCount(order, 0))
  {
    hide Found, ChainPage, VisitedCount, Limited, FirstOf, Dropped, IsEmpty;
    ghost var order := BlockOrder(f.direction, States(blocks));
    ghost var k := 0;
    var last := |blocks|;
    var blockNr := if f.direction == DESC then last else 1;
    var left := f.size;
    result := [];
    NoBlocks(dict.octet, dict.St(), f, order);
    while 1 <= blockNr <= last
      invariant k <= last && blockNr == if f.direction == DESC then last - k else k + 1
      invariant VisitedCount(order, 0) == VisitedCount(order, k)
      invariant result == ChainPage(dict.octet, dict.St(), f, order, k)
      invariant f.size > 0 ==> |result| < f.size && left == f.size - |result|
      invariant f.size == 0 ==> left == 0
      decreases last - k
    {
      var block := blocks[blockNr - 1];
      assert order[k] == block.St();
      Visit(order, k);
      if IsEmpty(block.St()) { break; }
      var numbers := FindTransactions(block, f.(size := left), dict);
      NextBlock(dict.octet, dict.St(), f, order, k, left, numbers);
      result := Take(result, numbers, f.size);
      k := k + 1;
      if f.size > 0 {
        left := f.size - |result|;
        if left == 0 {
          PageStays(dict.octet, dict.St(), f, order, k, VisitedCount(order, 0));
          return result;
        }
      }
      blockNr := if f.direction == DESC then blockNr - 1 else blockNr + 1;
    }
  }

  lemma NoBlocks(octet: D.Octets, dict: D.State, f: Filter, order: seq<State>)
    requires forall i :: 0 <= i < |order| ==> Tidied(order[i])
    ensures ChainHits(octet, dict, f, order, 0) == ChainPage(octet, dict, f, order, 0) == []
  {}

  lemma OneMoreBlock(octet: D.Octets, dict: D.State, f: Filter, order: seq<State>, k: nat)
    requires k < |order| && forall i :: 0 <= i < |order| ==> Tidied(order[i])
    ensures ChainHits(octet, dict, f, order, k + 1) ==
              ChainHits(octet, dict, f, order, k) + Found(octet, dict, f.(size := 0), order[k])
  {}

  /** Asking the next block for what is left and cutting off what it delivers too much gives the next part of the page. */
  lemma NextBlock(octet: D.Octets, dict: D.State, f: Filter, order: seq<State>, k: nat, left: nat, numbers: seq<nat>)
    requires k < |order| && forall i :: 0 <= i < |order| ==> Tidied(order[i])
    requires var before := ChainPage(octet, dict, f, order, k);
             if f.size > 0 then |before| < f.size && left == f.size - |before| else left == 0
    requires numbers == Found(octet, dict, f.(size := left), order[k])
    ensures Limited(ChainPage(octet, dict, f, order, k) + numbers, f.size) == ChainPage(octet, dict, f, order, k + 1)
    ensures f.size > 0 ==> |ChainPage(octet, dict, f, order, k + 1)| <= f.size
  {
    hide Found, Limited, FirstOf;
    if f.size > 0 {
      var before, all := ChainPage(octet, dict, f, order, k), Found(octet, dict, f.(size := 0), order[k]);
      BlockPage(octet, dict, f.(size := left), order[k]);
      PageGrows(before, Dropped(all, (f.page - 1) * left), numbers, f.size);
    }
  }

  /** The loop over the numbers of one block. */
  method Take(result: seq<nat>, numbers: seq<nat>, size: nat) returns (result': seq<nat>)
    requires size == 0 || |result| < size
    ensures result' == Limited(result + numbers, size)
  {
    result' := result;
    for i := 0 to |numbers|
      invariant result' == result + numbers[..i] && (size == 0 || |result'| <= size)
    {
      if !HasCapacityLeft(size, |result'|) {
        assert (result + numbers)[..size] == result';
        return;
      }
      result' := result' + [numbers[i]];
    }
    assert numbers[..|numbers|] == numbers;
    assert size > 0 && |result'| == size ==> (result + numbers)[..size] == result';
  }

  lemma PageGrows(before: seq<nat>, hits: seq<nat>, numbers: seq<nat>, size: nat)
    requires |before| < size && FirstOf(hits, size - |before|) <= numbers && (|hits| < size - |before| ==> numbers == hits)
    ensures Limited(before + numbers, size) == Limited(before + hits, size) && |Limited(before + hits, size)| <= size
  {}

  lemma Visit(order: seq<State>, k: nat)
    requires k < |order|
    ensures VisitedCount(order, k) == if IsEmpty(order[k]) then k else VisitedCount(order, k + 1)
  {}

  /** Further blocks do not change a full page. */
  lemma {:induction false} PageStays(octet: D.Octets, dict: D.State, f: Filter, order: seq<State>, k: nat, n: nat)
    requires k <= n <= |order| && forall i :: 0 <= i < |order| ==> Tidied(order[i])
    requires f.size > 0 && |ChainPage(octet, dict, f, order, k)| >= f.size
    ensures ChainPage(octet, dict, f, order, n) == ChainPage(octet, dict, f, order, k)
  {
    hide Found;
    if k < n { PageStays(octet, dict, f, order, k, n - 1); }
  }

  /** A first page holds the first matches of the blocks. */
  lemma {:induction false} FirstPageIsFirst(octet: D.Octets, dict: D.State, f: Filter, order: seq<State>, n: nat)
    requires n <= |order| && f.page <= 1 && forall i :: 0 <= i < |order| ==> Tidied(order[i])
    ensures ChainPage(octet, dict, f, order, n) == Limited(ChainHits(octet, dict, f, order, n), f.size)
  {
    hide Found, Limited, Dropped;
    if n == 0 {
      NothingLimited(f.size);
    } else {
      FirstPageIsFirst(octet, dict, f, order, n - 1);
      var before, all := ChainHits(octet, dict, f, order, n - 1), Found(octet, dict, f.(size := 0), order[n - 1]);
      LimitedGrows(before, all, f.size, f.page);
    }
  }

  lemma NothingLimited(size: nat)
    ensures Limited([], size) == []
  {}

  lemma LimitedGrows(before: seq<nat>, all: seq<nat>, size: nat, page: int)
    requires page <= 1
    ensures var page1 := Limited(before, size);
            if size > 0 && |page1| >= size then Limited(before + all, size) == page1
            else var left := if size > 0 then size - |page1| else 0;
                 Limited(page1 + Dropped(all, (page - 1) * left), size) == Limited(before + all, size)
  {
    var page1 := Limited(before, size);
    if size == 0 || |page1| < size { NotSkipped(page, if size > 0 then size - |page1| else 0); }
  }

  lemma NotSkipped(page: int, left: nat)
    requires page <= 1
    ensures (page - 1) * left <= 0
  {}

  method FindAllResultCount(blocks: seq<IndexCache.BlockIndex>, f: Filter, dict: D.Dictionary) returns (count: nat)
    requires |blocks| > 0 && forall i :: 0 <= i < |blocks| ==> Tidied(blocks[i].St())
    ensures var order := BlockOrder(f.direction, States(blocks));
            count == |ChainHits(dict.octet, dict.St(), f, order, VisitedCount(order, 0))|
  {
    hide Found, ChainHits, VisitedCount, IsEmpty;
    ghost var order := BlockOrder(f.direction, States(blocks));
    ghost var k := 0;
    var blockNr := if f.direction == DESC then |blocks| else 1;
    count := 0;
    NoBlocks(dict.octet, dict.St(), f, order);
    while 1 <= blockNr <= |blocks|
      invariant k <= |blocks| && blockNr == if f.direction == DESC then |blocks| - k else k + 1
      invariant VisitedCount(order, 0) == VisitedCount(order, k)
      invariant count == |ChainHits(dict.octet, dict.St(), f, order, k)|
      decreases |blocks| - k
    {
      var block := blocks[blockNr - 1];
      assert order[k] == block.St();
      Visit(order, k);
      if IsEmpty(block.St()) { break; }
      var n := CountTransactions(block, f, dict);
      OneMoreBlock(dict.octet, dict.St(), f, order, k);
      count := count + n;
      k := k + 1;
      blockNr := if f.direction == DESC then blockNr - 1 else blockNr + 1;
    }
  }

  // ---------------------------------------------------------------- the whole chain

  /** All entries of the first n blocks that match, oldest block first. */
  ghost function ChainScan(f: Filter, dict: D.State, states: seq<State>, n: nat): seq<nat>
    requires n <= |states|
  {
    if n == 0 then [] else
      ChainScan(f, dict, states, n - 1) + LinearScan(f, dict, Flat(states[n - 1].years), |Flat(states[n - 1].years)|)
  }

  ghost predicate AllSearchable(states: seq<State>) {
    forall i :: 0 <= i < |states| ==> Searchable(states[i])
  }

  /** Every block is searched rightly with an interval. */
  ghost predicate AllRight(interval: Option<(int, int)>, states: seq<State>)
    requires AllSearchable(states)
  {
    forall i :: 0 <= i < |states| ==> RightInterval(interval, states[i])
  }

  lemma {:induction false} ScanAnySize(f: Filter, dict: D.State, items: seq<Item>, n: nat)
    requires n <= |items|
    ensures LinearScan(f.(size := 0), dict, items, n) == LinearScan(f, dict, items, n)
  {
    if n > 0 {
      ScanAnySize(f, dict, items, n - 1);
      assert Matches(f.(size := 0), dict, items[n - 1].entry) == Matches(f, dict, items[n - 1].entry);
    }
  }

  lemma BlockFound(octet: D.Octets, dict: D.State, f: Filter, st: State)
    requires Searchable(st) && RightInterval(f.interval, st) && IsClear(octet, dict, f.publicKey)
    ensures Found(octet, dict, f.(size := 0), st) ==
              InOrder(f.direction, LinearScan(f, dict, Flat(st.years), |Flat(st.years)|))
  {
    hide Found, Flat, LinearScan, Searchable, IsClear, RightInterval;
    RightIntervalIsScanned(octet, dict, f.(size := 0), st);
    ScanAnySize(f, dict, Flat(st.years), |Flat(st.years)|);
  }

  lemma {:induction false} AscendingChain(octet: D.Octets, dict: D.State, f: Filter, states: seq<State>, n: nat)
    requires f.direction == ASC && n <= |states| && IsClear(octet, dict, f.publicKey)
    requires AllSearchable(states) && AllRight(f.interval, states)
    ensures forall i :: 0 <= i < |states| ==> Tidied(states[i])
    ensures ChainHits(octet, dict, f, states, n) == ChainScan(f, dict, states, n)
  {
    hide Found, Flat, LinearScan, RightInterval, IsClear;
    if n > 0 {
      AscendingChain(octet, dict, f, states, n - 1);
      BlockFound(octet, dict, f, states[n - 1]);
    }
  }

  /** What the last n blocks hold. */
  ghost function ChainScanFrom(f: Filter, dict: D.State, states: seq<State>, n: nat): seq<nat>
    requires n <= |states|
    decreases |states| - n
  {
    if n == |states| then [] else
      LinearScan(f, dict, Flat(states[n].years), |Flat(states[n].years)|) + ChainScanFrom(f, dict, states, n + 1)
  }

  lemma {:induction false} ScansMeet(f: Filter, dict: D.State, states: seq<State>, n: nat)
    requires n <= |states|
    ensures ChainScan(f, dict, states, n) + ChainScanFrom(f, dict, states, n) == ChainScan(f, dict, states, |states|)
    decreases |states| - n
  {
    hide Flat, LinearScan;
    if n < |states| { ScansMeet(f, dict, states, n + 1); }
  }

  lemma {:induction false} DescendingChain(octet: D.Octets, dict: D.State, f: Filter, states: seq<State>, n: nat)
    requires f.direction == DESC && n <= |states| && IsClear(octet, dict, f.publicKey)
    requires AllSearchable(states) && AllRight(f.interval, states)
    ensures forall i :: 0 <= i < |Reverse(states)| ==> Tidied(Reverse(states)[i])
    ensures ChainHits(octet, dict, f, Reverse(states), n) == Reverse(ChainScanFrom(f, dict, states, |states| - n))
  {
    hide Found, Flat, LinearScan, RightInterval, IsClear;
    if n > 0 {
      DescendingChain(octet, dict, f, states, n - 1);
      var st := states[|states| - n];
      BlockFound(octet, dict, f, st);
      ReverseConcat(LinearScan(f, dict, Flat(st.years), |Flat(st.years)|), ChainScanFrom(f, dict, states, |states| - n + 1));
    }
  }

  lemma AllTidied(states: seq<State>, direction: Direction)
    requires AllSearchable(states)
    ensures forall i :: 0 <= i < |states| ==> Tidied(BlockOrder(direction, states)[i])
  {}

  /** The page of findAll over non-empty blocks is made of the first matches of the whole chain in search order. */
  ghost predicate PageIsRight(octet: D.Octets, dict: D.State, f: Filter, states: seq<State>)
    requires AllSearchable(states)
  {
    AllTidied(states, f.direction);
    var order := BlockOrder(f.direction, states);
    ChainPage(octet, dict, f, order, VisitedCount(order, 0)) ==
      Limited(InOrder(f.direction, ChainScan(f, dict, states, |states|)), f.size)
  }

  /** It is so for a first page if every block is searched rightly. */
  lemma FirstPageOfChain(octet: D.Octets, dict: D.State, f: Filter, states: seq<State>)
    requires IsClear(octet, dict, f.publicKey) && f.page <= 1
    requires AllSearchable(states) && AllRight(f.interval, states) && forall i :: 0 <= i < |states| ==> !IsEmpty(states[i])
    ensures PageIsRight(octet, dict, f, states)
  {
    hide Found, Flat, LinearScan, RightInterval, Searchable, IsClear, ChainHits, ChainPage, ChainScan, Limited;
    var order := BlockOrder(f.direction, states);
    AllTidied(states, f.direction);
    assert VisitedCount(order, 0) == |order|;
    FirstPageIsFirst(octet, dict, f, order, |order|);
    if f.direction == ASC {
      AscendingChain(octet, dict, f, states, |states|);
    } else {
      DescendingChain(octet, dict, f, states, |states|);
      ScansMeet(f, dict, states, 0);
      NothingScanned(f, dict, states);
      assert [] + ChainScanFrom(f, dict, states, 0) == ChainScanFrom(f, dict, states, 0);
      assert order == Reverse(states) && |states| - |states| == 0;
    }
  }

  /** Everything in an interval: a block that is not searched rightly adds to what is found and not to what is there. */
  lemma {:induction false} WrongBlockAdds(octet: D.Octets, dict: D.State, interval: Option<(int, int)>, states: seq<State>, n: nat)
    requires n <= |states| && AllSearchable(states)
    ensures forall i :: 0 <= i < |states| ==> Tidied(states[i])
    ensures var f := Everything(interval);
            |ChainHits(octet, dict, f, states, n)| >= |ChainScan(f, dict, states, n)| &&
            ((exists i :: 0 <= i < n && !RightInterval(interval, states[i])) ==>
               |ChainHits(octet, dict, f, states, n)| > |ChainScan(f, dict, states, n)|)
  {
    hide Found, Flat, LinearScan, RightInterval;
    if n > 0 {
      WrongBlockAdds(octet, dict, interval, states, n - 1);
      if RightInterval(interval, states[n - 1]) {
        BlockFound(octet, dict, Everything(interval), states[n - 1]);
      } else {
        WrongIntervalFindsMore(octet, dict, interval, states[n - 1]);
      }
    }
  }

  /** The first pages asked for in an interval are right, whatever else the filter asks for, if and only if every block is
      searched rightly: in none of them the interval ends before the first month to search, unless that has no entries. */
  lemma ChainIsRightExactly(octet: D.Octets, dict: D.State, interval: Option<(int, int)>, states: seq<State>)
    requires D.Bijective(octet, dict) && AllSearchable(states) && forall i :: 0 <= i < |states| ==> !IsEmpty(states[i])
    ensures (forall f: Filter :: f.interval == interval && f.page <= 1 ==> PageIsRight(octet, dict, f, states)) <==>
            AllRight(interval, states)
  {
    hide Found, Flat, LinearScan, RightInterval, Searchable, D.Bijective, IsClear, ChainHits, ChainPage, ChainScan;
    if AllRight(interval, states) {
      forall f: Filter | f.interval == interval && f.page <= 1 ensures PageIsRight(octet, dict, f, states) {
        BijectiveIsClear(octet, dict, f.publicKey);
        FirstPageOfChain(octet, dict, f, states);
      }
    } else {
      var f := Everything(interval);
      AllTidied(states, ASC);
      assert VisitedCount(states, 0) == |states|;
      WrongBlockAdds(octet, dict, interval, states, |states|);
      FirstPageIsFirst(octet, dict, f, states, |states|);
      assert !PageIsRight(octet, dict, f, states);
    }
  }

  lemma NothingScanned(f: Filter, dict: D.State, states: seq<State>)
    ensures ChainScan(f, dict, states, 0) == []
  {}

  // ---------------------------------------------------------------- the block of a number

  predicate HasNumber(st: State, nr: nat) {
    st.min <= nr <= st.max
  }

  /** getTransactionForId: the newest block whose bounds hold the number. */
  method BlockForId(blocks: seq<IndexCache.BlockIndex>, nr: nat) returns (blockNr: nat)
    requires |blocks| > 0
    ensures blockNr <= |blocks|
    ensures blockNr > 0 ==> HasNumber(blocks[blockNr - 1].St(), nr)
    ensures forall i :: blockNr <= i < |blocks| ==> !HasNumber(blocks[i].St(), nr)
  {
    blockNr := |blocks|;
    while blockNr > 0
      invariant blockNr <= |blocks| && forall i :: blockNr <= i < |blocks| ==> !HasNumber(blocks[i].St(), nr)
    {
      if HasNumber(blocks[blockNr - 1].St(), nr) { return; }
      blockNr := blockNr - 1;
    }
  }

  /** If every block begins behind the numbers of the older ones, the newest block whose bounds hold the number of an
      entry is the block of the entry. */
  lemma BoundsLeadToBlock(states: seq<State>, k: nat, i: nat, found: nat)
    requires k < |states| && (forall b :: 0 <= b < |states| ==> Searchable(states[b]))
    requires forall a, b :: 0 <= a < b < |states| ==> IsEmpty(states[b]) || states[a].max < states[b].min
    requires i < |Flat(states[k].years)| && Flat(states[k].years)[i].entry.transactionNr > 0
    requires var nr := Flat(states[k].years)[i].entry.transactionNr;
             found <= |states| && (found > 0 ==> HasNumber(states[found - 1], nr)) &&
             forall b :: found <= b < |states| ==> !HasNumber(states[b], nr)
    ensures found == k + 1
  {
    hide Flat;
    var nr := Flat(states[k].years)[i].entry.transactionNr;
    assert Searchable(states[k]);
    assert HasNumber(states[k], nr);
  }
}
