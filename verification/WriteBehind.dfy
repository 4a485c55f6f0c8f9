/** The write-behind lookup of src/cache/Block.cpp: a pushed transaction wanders from the open write task to the observed
    tasks and to the file, while the cache in memory may drop it at any time. */
module WriteBehind {
  import opened ByteCodec
  import opened YearMonthIndex
  import opened WriteTasks
  import IndexFormat
  import IndexCache
  import BlockFile

  type Transactions = map<nat, Transaction>

  /** What is known of the outside: the file format of the index, and what a line is deserialized to. */
  datatype World = World(index: IndexFormat.Library, deserialize: BlockFile.Line -> Transaction)

  /** Everything that matters for looking up a transaction. pushed holds what has been pushed, with the numbers from first
      to before next; waiting are the contents of the tasks handed over and not yet written, and bounds the numbers at
      which they start, ending with the number at which the open task starts. */
  datatype View = View(first: nat, next: nat, pushed: Transactions, cached: Transactions, open: Option<Transactions>,
                       waiting: seq<Transactions>, bounds: seq<nat>, lines: seq<BlockFile.Line>, index: State)

  // ---------------------------------------------------------------- the invariant

  /** Fields within their widths, a line whose length fits its two bytes, and serialization that can be undone. */
  predicate Sound(w: World, t: Transaction) {
    1 <= t.nr < 0x1_0000_0000_0000_0000 && 1 <= t.month <= 12 && w.index.isType(t.transactionType) &&
    0 <= t.coinCommunityIdIndex < 0x1_0000_0000 && |t.addressIndices| < 0x100 &&
    (forall i :: 0 <= i < |t.addressIndices| ==> 0 <= t.addressIndices[i] < 0x1_0000_0000) &&
    |t.line| < 0x1_0000 && w.deserialize(t.line) == t
  }

  /** A part of what has been pushed: the numbers from lo to before hi. */
  ghost predicate Range(m: Transactions, pushed: Transactions, lo: nat, hi: nat) {
    (forall k :: k in m <==> lo <= k < hi) && forall k :: k in m ==> k in pushed && m[k] == pushed[k]
  }

  ghost predicate Chained(pushed: Transactions, waiting: seq<Transactions>, bounds: seq<nat>) {
    |bounds| == |waiting| + 1 &&
    forall i :: 0 <= i < |waiting| ==> bounds[i] <= bounds[i + 1] && Range(waiting[i], pushed, bounds[i], bounds[i + 1])
  }

  /** The file holds the first transactions in order, and the index knows the cursors of these and of no others. */
  ghost predicate Stored(pushed: Transactions, first: nat, lines: seq<BlockFile.Line>, cursors: map<nat, int>) {
    (forall k :: k in cursors <==> first <= k < first + |lines|) &&
    forall k :: k in cursors ==>
      k in pushed && lines[k - first] == pushed[k].line && cursors[k] == BlockFile.Cursor(lines, k - first)
  }

  ghost predicate Listed(years: Years, nr: nat) {
    exists y, m, i :: 0 <= i < |ListAt(years, y, m)| && ListAt(years, y, m)[i].transactionNr == nr
  }

  ghost predicate EntriesFrom(w: World, years: Years, pushed: Transactions) {
    forall y, m, i :: 0 <= i < |ListAt(years, y, m)| ==>
      GoodEntry(w.index, ListAt(years, y, m)[i]) && ListAt(years, y, m)[i].transactionNr in pushed
  }

  /** What the index keeps of a transaction. */
  function EntryFor(t: Transaction): Entry {
    Entry(t.nr, t.addressIndices, t.coinCommunityIdIndex, t.transactionType)
  }

  /** The entries of the transactions from first to before n, each at the end of its month. */
  function FiledYears(pushed: Transactions, first: nat, n: nat): Years {
    if n <= first || n - 1 !in pushed then map[] else
      var years, t := FiledYears(pushed, first, n - 1), pushed[n - 1];
      Put(years, t.year, t.month, ListAt(years, t.year, t.month) + [EntryFor(t)])
  }

  /** The index lists what has been pushed. */
  ghost predicate Indexed(w: World, index: State, pushed: Transactions, first: nat, next: nat) {
    index.years == FiledYears(pushed, first, next) &&
    Tidy(index.years) && RealMonths(index.years) && EntriesFrom(w, index.years, pushed) &&
    (forall nr :: nr in pushed ==> Listed(index.years, nr)) &&
    if first < next then index.min == first && index.max == next - 1 else index.min == index.max == 0
  }

  ghost predicate Known(w: World, pushed: Transactions, first: nat, next: nat) {
    1 <= first <= next && (forall nr :: nr in pushed <==> first <= nr < next) &&
    forall nr :: nr in pushed ==> pushed[nr].nr == nr && Sound(w, pushed[nr])
  }

  ghost predicate Within(some: Transactions, pushed: Transactions) {
    forall nr :: nr in some ==> nr in pushed && some[nr] == pushed[nr]
  }

  /** The open task holds the numbers from the end of the waiting ones on. */
  ghost predicate Opened(open: Option<Transactions>, pushed: Transactions, from: nat, next: nat) {
    from <= next && if open.None? then from == next else Range(open.value, pushed, from, next)
  }

  ghost predicate Consistent(w: World, v: View) {
    Known(w, v.pushed, v.first, v.next) && Within(v.cached, v.pushed) &&
    Stored(v.pushed, v.first, v.lines, v.index.cursors) &&
    Chained(v.pushed, v.waiting, v.bounds) && v.bounds[0] == v.first + |v.lines| &&
    Opened(v.open, v.pushed, v.bounds[|v.waiting|], v.next) && Indexed(w, v.index, v.pushed, v.first, v.next)
  }

  lemma NewBlock(w: World, first: nat)
    requires first >= 1
    ensures Consistent(w, View(first, first, map[], map[], None, [], [first], [], EMPTY))
  {}

  // ---------------------------------------------------------------- steps

  function Pushed(v: View, t: Transaction): View {
    v.(next := v.next + 1, pushed := v.pushed[t.nr := t], cached := v.cached[t.nr := t],
       open := Some((if v.open.None? then map[] else v.open.value)[t.nr := t]),
       index := IndexCache.EntryAdded(v.index, FiledAs(t)).0)
  }

  function HandedOver(v: View): View
    requires v.open.Some?
  {
    v.(open := None, waiting := v.waiting + [v.open.value], bounds := v.bounds + [v.next])
  }

  /** The first waiting task has written its lines. */
  function Written(v: View, nrs: seq<nat>): View
    requires v.waiting != [] && v.bounds != [] && forall k :: k in nrs ==> k in v.waiting[0]
  {
    var lines := v.lines + LinesOf(v.waiting[0], nrs);
    v.(waiting := v.waiting[1..], bounds := v.bounds[1..], lines := lines,
       index := CursorsAdded(v.index, nrs, CursorsFrom(lines, |v.lines|), |nrs|).0)
  }

  lemma PutListed(years: Years, year: IndexFormat.Period, month: IndexFormat.Period, e: Entry, nr: nat)
    requires Listed(years, nr) || nr == e.transactionNr
    ensures Listed(Put(years, year, month, ListAt(years, year, month) + [e]), nr)
  {
    var list := ListAt(years, year, month);
    var put := Put(years, year, month, list + [e]);
    PutAt(years, year, month, list + [e]);
    if Listed(years, nr) {
      var y, m, i :| 0 <= i < |ListAt(years, y, m)| && ListAt(years, y, m)[i].transactionNr == nr;
      assert ListAt(put, y, m)[i].transactionNr == nr;
    } else {
      assert ListAt(put, year, month)[|list|].transactionNr == nr;
    }
  }

  lemma PutAt(years: Years, year: IndexFormat.Period, month: IndexFormat.Period, list: seq<Entry>)
    ensures forall y, m :: ListAt(Put(years, year, month, list), y, m) ==
              if y == year && m == month then list else ListAt(years, y, m)
  {}

  /** An entry with the next number and without a cursor is filed at the end of its month. */
  lemma NextIsFiled(w: World, v: View, t: Transaction)
    requires Consistent(w, v) && t.nr == v.next && Sound(w, t)
    ensures var e := EntryFor(t);
            var years := Put(v.index.years, t.year, t.month, ListAt(v.index.years, t.year, t.month) + [e]);
            IndexCache.EntryAdded(v.index, FiledAs(t)) == (Noted(v.index, t.nr).(years := years), Ok(true)) &&
            GoodEntry(w.index, e) && AscendingNumbers(ListAt(v.index.years, t.year, t.month) + [e])
  {
    hide Put, Chained, Stored, Listed;
    var list := ListAt(v.index.years, t.year, t.month);
    MonthAscends(v.index.years, t.year, t.month);
    assert t.addressIndices[..|t.addressIndices| % 0x100] == t.addressIndices;
    assert t.addressIndices[..|t.addressIndices| % 0x1_0000] == t.addressIndices;
    forall i | 0 <= i < |list| ensures list[i].transactionNr < t.nr {
      assert list[i].transactionNr in v.pushed;
    }
    assert Noted(Noted(v.index, t.nr), t.nr) == Noted(v.index, t.nr);
  }

  /** What a push does to the index. */
  lemma PushKeepsIndexed(w: World, v: View, t: Transaction)
    requires Consistent(w, v) && t.nr == v.next && Sound(w, t)
    ensures IndexCache.EntryAdded(v.index, FiledAs(t)).1 == Ok(true)
    ensures Pushed(v, t).index.cursors == v.index.cursors && Indexed(w, Pushed(v, t).index, v.pushed[t.nr := t], v.first, v.next + 1)
  {
    hide Put, Chained, Stored, Listed, Sound, FiledAs, FiledYears, IndexCache.EntryAdded, AscendingNumbers, GoodEntry, Tidy;
    NextIsFiled(w, v, t);
    var e := EntryFor(t);
    var list := ListAt(v.index.years, t.year, t.month) + [e];
    var years := Put(v.index.years, t.year, t.month, list);
    PutKeepsTidy(v.index.years, t.year, t.month, list);
    assert RealMonths(years) by { PutKeepsRealMonths(v.index.years, t.year, t.month, list, w, t); }
    assert EntriesFrom(w, years, v.pushed[t.nr := t]);
    NextFiled(v.pushed, v.first, v.next, t);
    forall nr | nr in v.pushed[t.nr := t] ensures Listed(years, nr) {
      PutListed(v.index.years, t.year, t.month, e, nr);
    }
  }

  lemma {:induction false} FiledAgree(pushed: Transactions, more: Transactions, first: nat, n: nat)
    requires forall k :: first <= k < n ==> k in pushed && k in more && pushed[k] == more[k]
    ensures FiledYears(pushed, first, n) == FiledYears(more, first, n)
  {
    hide Put, ListAt, EntryFor;
    if n > first { FiledAgree(pushed, more, first, n - 1); }
  }

  lemma NextFiled(pushed: Transactions, first: nat, next: nat, t: Transaction)
    requires first <= next && forall k :: k in pushed <==> first <= k < next
    ensures var years := FiledYears(pushed, first, next);
            FiledYears(pushed[next := t], first, next + 1) ==
              Put(years, t.year, t.month, ListAt(years, t.year, t.month) + [EntryFor(t)])
  {
    hide Put, ListAt;
    FiledAgree(pushed, pushed[next := t], first, next);
  }

  lemma PutKeepsRealMonths(years: Years, year: IndexFormat.Period, month: IndexFormat.Period, list: seq<Entry>, w: World, t: Transaction)
    requires RealMonths(years) && Sound(w, t) && month == t.month
    ensures RealMonths(Put(years, year, month, list))
  {}

  lemma PushKeeps(w: World, v: View, t: Transaction)
    requires Consistent(w, v) && t.nr == v.next && Sound(w, t)
    ensures IndexCache.EntryAdded(v.index, FiledAs(t)).1 == Ok(true)
    ensures Consistent(w, Pushed(v, t))
  {
    hide Indexed, Sound, FiledAs, IndexCache.EntryAdded, Stored, Chained, Known, Opened, Within;
    PushKeepsIndexed(w, v, t);
    var pushed := v.pushed[t.nr := t];
    NextKnown(w, v.pushed, v.first, v.next, t);
    ChainStays(v.pushed, t, v.waiting, v.bounds);
    StoredStays(v.pushed, t, v.first, v.lines, v.index.cursors);
    OpenGrows(v.open, v.pushed, v.bounds[|v.waiting|], v.next, t);
    WithinGrows(v.cached, v.pushed, t);
  }

  lemma NextKnown(w: World, pushed: Transactions, first: nat, next: nat, t: Transaction)
    requires Known(w, pushed, first, next) && t.nr == next && Sound(w, t)
    ensures Known(w, pushed[next := t], first, next + 1) && next !in pushed
  {}

  lemma ChainStays(pushed: Transactions, t: Transaction, waiting: seq<Transactions>, bounds: seq<nat>)
    requires Chained(pushed, waiting, bounds) && t.nr !in pushed
    ensures Chained(pushed[t.nr := t], waiting, bounds)
  {}

  lemma StoredStays(pushed: Transactions, t: Transaction, first: nat, lines: seq<BlockFile.Line>, cursors: map<nat, int>)
    requires Stored(pushed, first, lines, cursors) && t.nr !in pushed
    ensures Stored(pushed[t.nr := t], first, lines, cursors)
  {
    hide BlockFile.Cursor;
  }

  lemma OpenGrows(open: Option<Transactions>, pushed: Transactions, from: nat, next: nat, t: Transaction)
    requires Opened(open, pushed, from, next) && t.nr == next && next !in pushed
    ensures Opened(Some((if open.None? then map[] else open.value)[next := t]), pushed[next := t], from, next + 1)
  {}

  lemma WithinGrows(some: Transactions, pushed: Transactions, t: Transaction)
    requires Within(some, pushed) && t.nr !in pushed
    ensures Within(some[t.nr := t], pushed[t.nr := t])
  {}

  lemma HandOverKeeps(w: World, v: View)
    requires Consistent(w, v) && v.open.Some?
    ensures Consistent(w, HandedOver(v))
  {
    hide Indexed, Known, Stored, Within;
    assert (v.bounds + [v.next])[0] == v.bounds[0];
  }

  lemma ExpiryKeeps(w: World, v: View, cached: Transactions)
    requires Consistent(w, v) && Within(cached, v.pushed)
    ensures Consistent(w, v.(cached := cached))
  {
    hide Indexed, Known, Stored, Within, Chained, Opened;
  }

  lemma WriteKeeps(w: World, v: View, nrs: seq<nat>)
    requires Consistent(w, v) && v.waiting != [] && Lists(nrs, v.waiting[0].Keys)
    ensures CursorsAdded(v.index, nrs, CursorsFrom(Written(v, nrs).lines, |v.lines|), |nrs|).1.Ok?
    ensures Consistent(w, Written(v, nrs))
  {
    hide Indexed, Known, Stored, Within, Chained, Opened, CursorsAdded, CursorsFrom, LinesOf, Range, BlockFile.Cursor, Took;
    FirstPart(v.pushed, v.waiting, v.bounds);
    CountsRange(nrs, v.waiting[0], v.pushed, v.bounds[0], v.bounds[1]);
    WriteGrows(w, v, nrs, Written(v, nrs));
    ChainShrinks(v.pushed, v.waiting, v.bounds);
  }

  /** The file and the index after a task has written its lines. */
  lemma WriteGrows(w: World, v: View, nrs: seq<nat>, v': View)
    requires Consistent(w, v) && v.waiting != [] && |v.bounds| > 1
    requires Range(v.waiting[0], v.pushed, v.bounds[0], v.bounds[1]) && |nrs| == v.bounds[1] - v.bounds[0]
    requires forall i :: 0 <= i < |nrs| ==> nrs[i] == v.bounds[0] + i
    requires (forall k :: k in nrs ==> k in v.waiting[0]) && v' == Written(v, nrs)
    ensures CursorsAdded(v.index, nrs, CursorsFrom(v'.lines, |v.lines|), |nrs|).1.Ok?
    ensures Stored(v.pushed, v.first, v'.lines, v'.index.cursors) && Indexed(w, v'.index, v.pushed, v.first, v.next)
  {
    hide Indexed, Known, Stored, Within, Chained, Opened, CursorsAdded, CursorsFrom, LinesOf, Range, BlockFile.Cursor, Took;
    LinesInRange(nrs, v.waiting[0], v.pushed, v.bounds[0], v.bounds[1], v.lines);
    var cursors := CursorsFrom(v'.lines, |v.lines|);
    FreshNumbers(w, v, nrs, v'.lines, cursors);
    NewCursorsAreAdded(v.index, v.bounds[0], nrs, cursors, |nrs|);
    StoredGrows(v.pushed, v.first, v.lines, v.index, nrs, v'.lines, v'.index);
    SameIndexed(w, v.index, v'.index, v.bounds[0], cursors, v.pushed, v.first, v.next);
  }

  lemma FirstPart(pushed: Transactions, waiting: seq<Transactions>, bounds: seq<nat>)
    requires Chained(pushed, waiting, bounds) && waiting != []
    ensures |bounds| == |waiting| + 1 && bounds[0] <= bounds[1] && Range(waiting[0], pushed, bounds[0], bounds[1])
    ensures bounds[1..][|waiting| - 1] == bounds[|waiting|]
  {}

  lemma LinesInRange(nrs: seq<nat>, m: Transactions, pushed: Transactions, a: nat, b: nat, before: seq<BlockFile.Line>)
    requires Range(m, pushed, a, b) && |nrs| == b - a && forall i :: 0 <= i < |nrs| ==> nrs[i] == a + i
    ensures forall k :: k in nrs ==> k in m
    ensures forall i :: 0 <= i < |nrs| ==> nrs[i] in pushed && (before + LinesOf(m, nrs))[|before| + i] == pushed[nrs[i]].line
  {
    forall i | 0 <= i < |nrs|
      ensures nrs[i] in pushed && (before + LinesOf(m, nrs))[|before| + i] == pushed[nrs[i]].line
    {
      assert nrs[i] in m;
      assert (before + LinesOf(m, nrs))[|before| + i] == LinesOf(m, nrs)[i];
    }
  }

  lemma ChainShrinks(pushed: Transactions, waiting: seq<Transactions>, bounds: seq<nat>)
    requires Chained(pushed, waiting, bounds) && waiting != []
    ensures Chained(pushed, waiting[1..], bounds[1..])
  {}

  lemma SameIndexed(w: World, index: State, index': State, a: nat, cursors: seq<nat>, pushed: Transactions, first: nat, next: nat)
    requires Indexed(w, index, pushed, first, next) && Took(index, a, cursors, |cursors|, index')
    ensures Indexed(w, index', pushed, first, next)
  {}

  /** Listing a part of what has been pushed counts its numbers. */
  lemma CountsRange(nrs: seq<nat>, m: Transactions, pushed: Transactions, a: nat, b: nat)
    requires Range(m, pushed, a, b) && Lists(nrs, m.Keys) && a <= b
    ensures |nrs| == b - a && forall i :: 0 <= i < |nrs| ==> nrs[i] == a + i
  {
    forall i | 0 <= i < |nrs| ensures nrs[i] == a + i { ListedAt(nrs, m.Keys, a, b, i); }
    assert a + |nrs| in nrs <==> a + |nrs| in m.Keys;
    assert |nrs| > 0 ==> nrs[|nrs| - 1] in m.Keys;
  }

  lemma {:induction false} ListedAt(nrs: seq<nat>, keys: set<nat>, a: nat, b: nat, i: nat)
    requires Lists(nrs, keys) && i < |nrs| && forall k :: k in keys <==> a <= k < b
    ensures nrs[i] == a + i
  {
    assert nrs[i] in keys;
    if i > 0 { ListedAt(nrs, keys, a, b, i - 1); }
    assert a + i in keys;
    var j :| 0 <= j < |nrs| && nrs[j] == a + i;
    assert i > 0 ==> j > i - 1;
  }

  lemma FreshNumbers(w: World, v: View, nrs: seq<nat>, lines: seq<BlockFile.Line>, cursors: seq<nat>)
    requires Consistent(w, v) && |nrs| + |v.lines| == |lines| && cursors == CursorsFrom(lines, |v.lines|)
    requires forall i :: 0 <= i < |nrs| ==> nrs[i] == v.bounds[0] + i && nrs[i] in v.pushed
    ensures forall i :: 0 <= i < |nrs| ==> nrs[i] !in v.index.cursors && (cursors[i] == 0 ==> nrs[i] <= v.index.min)
  {
    hide Chained, Sound, Tidy, EntriesFrom, Listed, BlockFile.LogUpTo;
    forall i | 0 <= i < |nrs| ensures nrs[i] !in v.index.cursors && (cursors[i] == 0 ==> nrs[i] <= v.index.min) {
      if |v.lines| + i > 0 { CursorIsPositive(lines, |v.lines| + i); }
      assert nrs[i] in v.pushed;
    }
  }

  lemma CursorIsPositive(lines: seq<BlockFile.Line>, k: nat)
    requires 0 < k <= |lines|
    ensures BlockFile.Cursor(lines, k) > 0
  {
    BlockFile.LineInLog(lines, k - 1);
  }

  lemma StoredGrows(pushed: Transactions, first: nat, lines: seq<BlockFile.Line>, index: State, nrs: seq<nat>,
                    lines': seq<BlockFile.Line>, index': State)
    requires Stored(pushed, first, lines, index.cursors)
    requires forall i :: 0 <= i < |nrs| ==> nrs[i] == first + |lines| + i && nrs[i] in pushed
    requires |lines'| == |lines| + |nrs| && lines <= lines'
    requires forall i :: 0 <= i < |nrs| ==> lines'[|lines| + i] == pushed[nrs[i]].line
    requires Took(index, first + |lines|, CursorsFrom(lines', |lines|), |nrs|, index')
    ensures Stored(pushed, first, lines', index'.cursors)
  {
    hide BlockFile.Cursor;
    assert lines' == lines + lines'[|lines|..];
    forall k | k in index'.cursors
      ensures k in pushed && lines'[k - first] == pushed[k].line && index'.cursors[k] == BlockFile.Cursor(lines', k - first)
    {
      if k in index.cursors {
        BlockFile.Extend((h, s) => h, lines, lines'[|lines|..], k - first);
      } else {
        var i := k - first - |lines|;
        assert nrs[i] == k;
      }
    }
  }

  /** Every number that has been pushed is in the file with its cursor, in one of the waiting tasks, or in the open one. */
  lemma NoneIsLost(w: World, v: View, nr: nat)
    requires Consistent(w, v) && nr in v.pushed
    ensures (nr in v.index.cursors && v.lines[nr - v.first] == v.pushed[nr].line &&
             v.index.cursors[nr] == BlockFile.Cursor(v.lines, nr - v.first)) ||
            (exists i :: 0 <= i < |v.waiting| && nr in v.waiting[i] && v.waiting[i][nr] == v.pushed[nr]) ||
            (v.open.Some? && nr in v.open.value && v.open.value[nr] == v.pushed[nr])
  {
    hide Indexed, Sound;
    if nr >= v.bounds[0] && nr < v.bounds[|v.waiting|] {
      var i := TaskOf(v.pushed, v.waiting, v.bounds, nr, |v.waiting|);
    }
  }

  lemma InNoTaskIsInFile(w: World, v: View, nr: nat)
    requires Consistent(w, v) && (forall i :: 0 <= i < |v.waiting| ==> nr !in v.waiting[i])
    requires v.open.Some? ==> nr !in v.open.value
    ensures nr in v.index.cursors <==> nr in v.pushed
    ensures nr in v.pushed ==>
              v.first <= nr < v.first + |v.lines| && v.lines[nr - v.first] == v.pushed[nr].line &&
              v.index.cursors[nr] == BlockFile.Cursor(v.lines, nr - v.first)
  {
    hide Indexed, Known, Chained, Opened, Within, BlockFile.Cursor;
    if nr in v.pushed { NoneIsLost(w, v, nr); }
  }

  lemma {:induction false} TaskOf(pushed: Transactions, waiting: seq<Transactions>, bounds: seq<nat>, nr: nat, n: nat)
    returns (i: nat)
    requires Chained(pushed, waiting, bounds) && n <= |waiting| && bounds[0] <= nr < bounds[n]
    ensures i < n && nr in waiting[i] && nr in pushed && waiting[i][nr] == pushed[nr]
  {
    if nr >= bounds[n - 1] { i := n - 1; } else { i := TaskOf(pushed, waiting, bounds, nr, n - 1); }
  }
}
