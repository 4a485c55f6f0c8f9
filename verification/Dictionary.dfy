/** The persistent string numbering of src/cache/Dictionary.cpp. The file maps an index to its string;
    the lookup in memory maps eight bytes of a string (its octet) to one index, so two strings may share an octet. */
module Dictionary {
  import opened ByteCodec

  datatype Error = EmptyString | NotFound

  /** mLastIndex, mDictionaryFile and mValueKeyReverseLookup. */
  datatype State = State(lastIndex: nat, file: map<nat, string>, reverse: map<nat, nat>)

  type Octets = string -> nat

  // ---------------------------------------------------------------- specification

  /** The index under which a string is found, 0 if it is not. */
  function Lookup(octet: Octets, st: State, s: string): (index: nat) {
    if octet(s) in st.reverse && st.reverse[octet(s)] in st.file && st.file[st.reverse[octet(s)]] == s
    then st.reverse[octet(s)] else 0
  }

  /** A new string gets the next index; its octet is only entered if it is still free. */
  function Added(octet: Octets, st: State, s: string): State {
    var index := st.lastIndex + 1;
    State(index, st.file[index := s],
          if octet(s) in st.reverse then st.reverse else st.reverse[octet(s) := index])
  }

  function Asked(octet: Octets, st: State, s: string): (State, nat) {
    if Lookup(octet, st, s) != 0 then (st, Lookup(octet, st, s))
    else (Added(octet, st, s), st.lastIndex + 1)
  }

  /** A reopened dictionary: same file, every octet in it leads to one of its indices, and the last index
      is the number of octets. */
  ghost predicate Reopened(octet: Octets, st: State, st': State) {
    st'.file == st.file && st'.lastIndex == |st'.reverse| &&
    (forall k :: k in st'.reverse ==> st'.reverse[k] in st.file && octet(st.file[st'.reverse[k]]) == k) &&
    (forall i :: i in st.file ==> octet(st.file[i]) in st'.reverse)
  }

  ghost predicate DistinctOctets(octet: Octets, file: map<nat, string>) {
    forall i, j :: i in file && j in file && octet(file[i]) == octet(file[j]) ==> i == j
  }

  /** The indices in use are 1 to lastIndex, and octets and indices determine each other. */
  ghost predicate Bijective(octet: Octets, st: State) {
    (forall i :: i in st.file <==> 1 <= i <= st.lastIndex) &&
    (forall i :: i in st.file ==> octet(st.file[i]) in st.reverse && st.reverse[octet(st.file[i])] == i) &&
    (forall k :: k in st.reverse ==> st.reverse[k] in st.file && octet(st.file[st.reverse[k]]) == k)
  }

  // ---------------------------------------------------------------- laws

  /** Whatever collides, an index reported for a string leads back to that string. */
  lemma ReportedIndexIsRight(octet: Octets, st: State, s: string)
    ensures var (st', i) := Asked(octet, st, s); i in st'.file && st'.file[i] == s
  {}

  /** A string keeps the index it was given exactly if, when asked for the first time, its octet was free, or led
      to the string itself or to the index about to be given. */
  lemma IndexIsStableExactly(octet: Octets, st: State, s: string)
    ensures var (st1, i1) := Asked(octet, st, s);
            var (st2, i2) := Asked(octet, st1, s);
            i1 == i2 <==>
            octet(s) !in st.reverse || Lookup(octet, st, s) != 0 || st.reverse[octet(s)] == st.lastIndex + 1
  {
    var (st1, i1) := Asked(octet, st, s);
    if octet(s) in st.reverse && Lookup(octet, st, s) == 0 {
      assert st1.reverse == st.reverse;
    }
  }

  /** Asking for a string n times: the state and the last answer. */
  function AskedTimes(octet: Octets, st: State, s: string, n: nat): (State, nat) {
    if n == 0 then (st, 0) else Asked(octet, AskedTimes(octet, st, s, n - 1).0, s)
  }

  /** The octet of a string leads to another string, so the string gets a new index every time it is asked for. */
  lemma {:induction false} CollisionNumbersAgain(octet: Octets, st: State, s: string, n: nat)
    requires octet(s) in st.reverse && st.reverse[octet(s)] in st.file && st.file[st.reverse[octet(s)]] != s
    requires st.reverse[octet(s)] <= st.lastIndex
    ensures var (st', i) := AskedTimes(octet, st, s, n);
            st'.lastIndex == st.lastIndex + n && st'.reverse == st.reverse && (n > 0 ==> i == st.lastIndex + n) &&
            (forall k :: st.lastIndex < k <= st.lastIndex + n ==> k in st'.file && st'.file[k] == s) &&
            forall k :: k <= st.lastIndex ==> (k in st'.file <==> k in st.file) && (k in st.file ==> st'.file[k] == st.file[k])
  {
    if n > 0 { CollisionNumbersAgain(octet, st, s, n - 1); }
  }

  /** Asking keeps every index already assigned if and only if it finds the string, or the next index is free or the
      string's own. */
  lemma AskingKeepsIndicesExactly(octet: Octets, st: State, s: string)
    ensures var (st', _) := Asked(octet, st, s);
            (forall i :: i in st.file ==> i in st'.file && st'.file[i] == st.file[i]) <==>
            Lookup(octet, st, s) != 0 || st.lastIndex + 1 !in st.file || st.file[st.lastIndex + 1] == s
  {
    var next := st.lastIndex + 1;
    assert next in Added(octet, st, s).file && Added(octet, st, s).file[next] == s;
  }

  /** Reopening a dictionary of N strings, two of which share an octet, sets the last index too low: the next string that is
      not found takes an index away from another one. */
  lemma ReopenedCollisionLosesIndex(octet: Octets, st: State, st': State, s: string)
    requires Reopened(octet, st, st') && (forall i :: i in st.file <==> 1 <= i <= st.lastIndex)
    requires !DistinctOctets(octet, st.file) && Lookup(octet, st', s) == 0
    ensures var next := st'.lastIndex + 1;
            next in st.file && Asked(octet, st', s).1 == next && Asked(octet, st', s).0.file == st.file[next := s] &&
            (st.file[next] != s ==> Asked(octet, st', s).0.file[next] != st.file[next])
  {
    ReopenedLastIndexExactly(octet, st, st');
    CountUpTo(st.file.Keys, st.lastIndex);
  }

  /** Without a collision asking keeps the bijection and every index already assigned; a known string keeps its own. */
  lemma AskingKeepsBijection(octet: Octets, st: State, s: string)
    requires Bijective(octet, st)
    requires forall i :: i in st.file && octet(st.file[i]) == octet(s) ==> st.file[i] == s
    ensures var (st', index) := Asked(octet, st, s);
            Bijective(octet, st') && index != 0 &&
            (forall i :: i in st.file ==> i in st'.file && st'.file[i] == st.file[i]) &&
            (forall i :: i in st.file && st.file[i] == s ==> st' == st && index == i) &&
            (forall i :: i in st'.file ==> i in st.file || st'.file[i] == s)
  {
    if octet(s) in st.reverse {
      assert st.file[st.reverse[octet(s)]] == s;
    }
  }

  /** Reopening counts octets, so it finds the old last index exactly if no two strings share one. */
  lemma ReopenedLastIndexExactly(octet: Octets, st: State, st': State)
    requires Reopened(octet, st, st')
    ensures st'.lastIndex <= |st.file|
    ensures st'.lastIndex == |st.file| <==> DistinctOctets(octet, st.file)
  {
    var image := set k | k in st'.reverse :: st'.reverse[k];
    SameSize(st'.reverse, image);
    assert image <= st.file.Keys;
    SubsetSize(image, st.file.Keys);
    if DistinctOctets(octet, st.file) {
      forall i | i in st.file ensures i in image {
        var j := st'.reverse[octet(st.file[i])];
        assert octet(st.file[j]) == octet(st.file[i]);
      }
      assert image == st.file.Keys;
    } else {
      var i, j :| i in st.file && j in st.file && octet(st.file[i]) == octet(st.file[j]) && i != j;
      assert st'.reverse[octet(st.file[i])] != i || st'.reverse[octet(st.file[i])] != j;
      assert image != st.file.Keys;
      SubsetSize(image, st.file.Keys);
    }
  }

  lemma {:induction false} SameSize(m: map<nat, nat>, image: set<nat>)
    requires image == set k | k in m :: m[k]
    requires forall k, l :: k in m && l in m && m[k] == m[l] ==> k == l
    ensures |image| == |m|
  {
    if m != map[] {
      var k :| k in m;
      var rest := m - {k};
      assert m.Keys == rest.Keys + {k};
      assert image - {m[k]} == set l | l in rest :: rest[l];
      SameSize(rest, image - {m[k]});
    }
  }

  lemma {:induction false} SubsetSize(a: set<nat>, b: set<nat>)
    requires a <= b
    ensures |a| <= |b| && (|a| == |b| ==> a == b)
  {
    if a != {} {
      var x :| x in a;
      SubsetSize(a - {x}, b - {x});
    }
  }

  lemma {:induction false} CountUpTo(keys: set<nat>, n: nat)
    requires forall i :: i in keys <==> 1 <= i <= n
    ensures |keys| == n
  {
    if n > 0 {
      CountUpTo(keys - {n}, n - 1);
    } else {
      assert keys == {};
    }
  }

  lemma ReopeningKeepsBijection(octet: Octets, st: State, st': State)
    requires Bijective(octet, st) && Reopened(octet, st, st')
    ensures st' == st
  {
    ReopenedLastIndexExactly(octet, st, st');
    CountUpTo(st.file.Keys, st.lastIndex);
    assert st'.reverse == st.reverse;
  }

  // ---------------------------------------------------------------- whole runs

  datatype Event = Ask(s: string, index: nat) | Reopen

  ghost predicate Step(octet: Octets, st: State, e: Event, st': State) {
    match e
    case Ask(s, index) => (st', index) == Asked(octet, st, s)
    case Reopen => Reopened(octet, st, st')
  }

  /** states[i] to states[i+1] by events[i], starting from an empty dictionary. */
  ghost predicate Run(octet: Octets, states: seq<State>, events: seq<Event>) {
    |states| == |events| + 1 && states[0] == State(0, map[], map[]) &&
    forall i :: 0 <= i < |events| ==> Step(octet, states[i], events[i], states[i + 1])
  }

  ghost predicate NoCollision(octet: Octets, events: seq<Event>) {
    forall i, j :: 0 <= i < |events| && 0 <= j < |events| ==>
      events[i].Ask? && events[j].Ask? && octet(events[i].s) == octet(events[j].s) ==> events[i].s == events[j].s
  }

  ghost predicate OnlyAsked(st: State, events: seq<Event>, n: nat)
    requires n <= |events|
  {
    forall i :: i in st.file ==> exists j :: 0 <= j < n && events[j].Ask? && events[j].s == st.file[i]
  }

  /** What holds after the first n events of a run without colliding strings. */
  ghost predicate Numbering(octet: Octets, st: State, events: seq<Event>, n: nat)
    requires n <= |events|
  {
    Bijective(octet, st) && OnlyAsked(st, events, n) &&
    forall j :: 0 <= j < n && events[j].Ask? ==> events[j].index in st.file && st.file[events[j].index] == events[j].s
  }

  lemma AskKeepsNumbering(octet: Octets, st: State, st': State, events: seq<Event>, n: nat)
    requires n < |events| && NoCollision(octet, events) && Numbering(octet, st, events, n)
    requires events[n].Ask? && (st', events[n].index) == Asked(octet, st, events[n].s)
    ensures Numbering(octet, st', events, n + 1)
  {
    hide Bijective, Asked, Lookup, OnlyAsked, NoCollision;
    OnlyOneWithOctet(octet, st, events, n);
    AskingKeepsBijection(octet, st, events[n].s);
    ReportedIndexIsRight(octet, st, events[n].s);
    OneMoreAsked(st, st', events, n);
  }

  lemma OnlyOneWithOctet(octet: Octets, st: State, events: seq<Event>, n: nat)
    requires n < |events| && NoCollision(octet, events) && OnlyAsked(st, events, n) && events[n].Ask?
    ensures forall i :: i in st.file && octet(st.file[i]) == octet(events[n].s) ==> st.file[i] == events[n].s
  {
    forall i | i in st.file && octet(st.file[i]) == octet(events[n].s) ensures st.file[i] == events[n].s {
      var j :| 0 <= j < n && events[j].Ask? && events[j].s == st.file[i];
    }
  }

  lemma OneMoreAsked(st: State, st': State, events: seq<Event>, n: nat)
    requires n < |events| && OnlyAsked(st, events, n) && events[n].Ask?
    requires forall i :: i in st'.file ==> (i in st.file && st'.file[i] == st.file[i]) || st'.file[i] == events[n].s
    ensures OnlyAsked(st', events, n + 1)
  {
    forall i | i in st'.file ensures exists j :: 0 <= j < n + 1 && events[j].Ask? && events[j].s == st'.file[i] {
      if st'.file[i] == events[n].s {
        assert events[n].s == st'.file[i];
      } else {
        var j :| 0 <= j < n && events[j].Ask? && events[j].s == st.file[i];
        assert events[j].s == st'.file[i];
      }
    }
  }

  lemma ReopenKeepsNumbering(octet: Octets, st: State, st': State, events: seq<Event>, n: nat)
    requires n < |events| && Numbering(octet, st, events, n) && Reopened(octet, st, st') && events[n].Reopen?
    ensures Numbering(octet, st', events, n + 1)
  {
    ReopeningKeepsBijection(octet, st, st');
  }

  /** Over a run without colliding strings the numbering is a bijection between 1..lastIndex and the strings asked for. */
  lemma {:induction false} RunIsBijective(octet: Octets, states: seq<State>, events: seq<Event>, n: nat)
    requires Run(octet, states, events) && NoCollision(octet, events) && n <= |events|
    ensures Numbering(octet, states[n], events, n)
  {
    hide Numbering, NoCollision, Reopened, Asked;
    if n == 0 {
      StartsNumbering(octet, events);
    } else {
      RunIsBijective(octet, states, events, n - 1);
      assert Step(octet, states[n - 1], events[n - 1], states[n]);
      match events[n - 1]
      case Ask(_, _) =>
        AskKeepsNumbering(octet, states[n - 1], states[n], events, n - 1);
      case Reopen =>
        ReopenKeepsNumbering(octet, states[n - 1], states[n], events, n - 1);
    }
  }

  lemma StartsNumbering(octet: Octets, events: seq<Event>)
    ensures Numbering(octet, State(0, map[], map[]), events, 0)
  {}

  /** An index, once assigned, names its string for good, and asking again gives the same index. */
  lemma AssignedForGood(octet: Octets, states: seq<State>, events: seq<Event>, j: nat, k: nat)
    requires Run(octet, states, events) && NoCollision(octet, events)
    requires j <= k < |events| && events[j].Ask? && events[k].Ask?
    ensures events[j].s == events[k].s <==> events[j].index == events[k].index
  {
    RunIsBijective(octet, states, events, k + 1);
    var st := states[k + 1];
    assert st.reverse[octet(st.file[events[j].index])] == events[j].index;
    assert st.reverse[octet(st.file[events[k].index])] == events[k].index;
  }

  // ---------------------------------------------------------------- the object

  class Dictionary {
    const octet: Octets

    var lastIndex: nat
    var file: map<nat, string>
    var reverse: map<nat, nat>

    function St(): State
      reads this
    {
      State(lastIndex, file, reverse)
    }

    constructor (octet: Octets, content: map<nat, string>)
      ensures this.octet == octet && St() == State(0, content, map[])
    {
      this.octet := octet;
      lastIndex, file, reverse := 0, content, map[];
    }

    /** Enters every string of the file, in the order the file hands them out; an octet already there stays. */
    method Init()
      requires reverse == map[]
      modifies `lastIndex, `reverse
      ensures Reopened(octet, old(St()), St())
    {
      var left := file.Keys;
      while left != {}
        invariant left <= file.Keys
        invariant forall k :: k in reverse ==> reverse[k] in file && octet(file[reverse[k]]) == k
        invariant forall i :: i in file && i !in left ==> octet(file[i]) in reverse
        decreases left
      {
        var index :| index in left;
        left := left - {index};
        if octet(file[index]) !in reverse {
          reverse := reverse[octet(file[index]) := index];
        }
      }
      lastIndex := |reverse|;
    }

    method FindIndexForString(s: string) returns (r: Result<nat, Error>)
      ensures r == if s == "" then Err(EmptyString) else Ok(Lookup(octet, St(), s))
    {
      if s == "" { return Err(EmptyString); }
      if octet(s) in reverse {
        var index := reverse[octet(s)];
        if index in file && file[index] == s { return Ok(index); }
      }
      return Ok(0);
    }

    method GetIndexForString(s: string) returns (r: Result<nat, Error>)
      ensures s == "" ==> r == Err(EmptyString)
      ensures s != "" ==> r == if Lookup(octet, St(), s) == 0 then Err(NotFound) else Ok(Lookup(octet, St(), s))
    {
      r := FindIndexForString(s);
      if r == Ok(0) { r := Err(NotFound); }
    }

    method GetStringForIndex(index: nat) returns (r: Result<string, Error>)
      ensures r == if index in file then Ok(file[index]) else Err(NotFound)
    {
      if index !in file { return Err(NotFound); }
      return Ok(file[index]);
    }

    method GetOrAddIndexForString(s: string) returns (r: Result<nat, Error>)
      modifies this
      ensures s == "" ==> r == Err(EmptyString) && St() == old(St())
      ensures s != "" ==> r.Ok? && (St(), r.value) == Asked(octet, old(St()), s)
    {
      var index := FindIndexForString(s);
      if index.Err? { return index; }
      if index.value == 0 {
        lastIndex := lastIndex + 1;
        file := file[lastIndex := s];
        if octet(s) !in reverse {
          reverse := reverse[octet(s) := lastIndex];
        }
        return Ok(lastIndex);
      }
      return index;
    }

    /** Deletes the file and the last index, but not the lookup in memory. */
    method Reset()
      modifies `lastIndex, `file
      ensures St() == State(0, map[], old(reverse))
    {
      file := map[];
      lastIndex := 0;
    }
  }

  /** Asked for n times after a reset that left a stale index in the lookup, a string is numbered again until it is given
      that very index. The source resets only where init has failed, when the lookup is still empty. */
  lemma {:induction false} ResetLeavesStaleLookup(octet: Octets, reverse: map<nat, nat>, s: string, n: nat)
    requires octet(s) in reverse && reverse[octet(s)] >= 1
    ensures var stale := reverse[octet(s)]; var (st, i) := AskedTimes(octet, State(0, map[], reverse), s, n);
            st.lastIndex == (if n < stale then n else stale) && st.reverse == reverse && (n > 0 ==> i == st.lastIndex) &&
            forall k :: k in st.file <==> 1 <= k <= st.lastIndex && (k in st.file ==> st.file[k] == s)
  {
    if n > 0 { ResetLeavesStaleLookup(octet, reverse, s, n - 1); }
  }
}
