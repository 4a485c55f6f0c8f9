/** The append-only block file of src/model/files/Block.cpp: lines with a two-byte length in front,
    closed by a chained hash that every append reads, extends and overwrites. */
module BlockFile {
  import opened ByteCodec

  const HASH_SIZE := 32

  /** Two length bytes and MAGIC_NUMBER_MINIMAL_TRANSACTION_SIZE. */
  const MINIMAL_FILE_SIZE := 27

  type Hash = h: seq<byte> | |h| == HASH_SIZE witness seq(32, i => 0)
  type Line = seq<byte>

  const ZERO_HASH: Hash := seq(HASH_SIZE, i => 0)

  datatype Error = EndReaching | InvalidReadBlockSize | HashMismatch

  // ---------------------------------------------------------------- contents of the file

  function Record(line: Line): (s: seq<byte>)
    ensures |s| == 2 + |line|
  {
    LittleEndian(|line|, 2) + line
  }

  /** The first n lines as they lie in the file. */
  function LogUpTo(lines: seq<Line>, n: nat): seq<byte>
    requires n <= |lines|
  {
    if n == 0 then [] else LogUpTo(lines, n - 1) + Record(lines[n - 1])
  }

  function Log(lines: seq<Line>): seq<byte> {
    LogUpTo(lines, |lines|)
  }

  /** The running hash: every line is folded into the hash before it, starting from zeros. */
  function ChainUpTo(step: (Hash, seq<byte>) -> Hash, lines: seq<Line>, n: nat): Hash
    requires n <= |lines|
  {
    if n == 0 then ZERO_HASH else step(ChainUpTo(step, lines, n - 1), lines[n - 1])
  }

  function Chain(step: (Hash, seq<byte>) -> Hash, lines: seq<Line>): Hash {
    ChainUpTo(step, lines, |lines|)
  }

  /** Where line k starts. */
  function Cursor(lines: seq<Line>, k: nat): nat
    requires k <= |lines|
  {
    |LogUpTo(lines, k)|
  }

  predicate Readable(line: Line) {
    |line| >= MINIMAL_FILE_SIZE
  }

  /** A length must fit the two bytes in front of a line; appendLines asserts it. */
  predicate Fits(lines: seq<Line>) {
    forall k :: 0 <= k < |lines| ==> |lines[k]| < 0x1_0000
  }

  /** The content of a file holding these lines; a file never appended to may also be empty. */
  ghost predicate Holds(step: (Hash, seq<byte>) -> Hash, disk: seq<byte>, lines: seq<Line>) {
    Fits(lines) && (disk == Log(lines) + Chain(step, lines) || (disk == [] && lines == []))
  }

  /** What readLine makes of the bytes of a file of which size are lines. */
  function LineAt(disk: seq<byte>, size: nat, start: nat): Result<Line, Error>
    requires size == 0 || size + HASH_SIZE <= |disk|
  {
    if size <= MINIMAL_FILE_SIZE then Err(EndReaching)
    else if start > size - MINIMAL_FILE_SIZE then Err(EndReaching)
    else
      var transactionSize := U16At(disk, start);
      if start + transactionSize > size then Err(EndReaching)
      else if transactionSize < MINIMAL_FILE_SIZE then Err(InvalidReadBlockSize)
      else Ok(disk[start + 2..start + 2 + transactionSize])
  }

  function U16At(disk: seq<byte>, at: nat): (n: nat)
    requires at + 2 <= |disk|
    ensures n < 0x1_0000
  {
    var s := disk[at..at + 2];
    assert s[1..][1..] == [];
    assert FromLittleEndian(s[1..]) == s[1];
    FromLittleEndian(s)
  }

  // ---------------------------------------------------------------- laws of the contents

  lemma {:induction false} LogPrefix(lines: seq<Line>, k: nat, n: nat)
    requires k <= n <= |lines|
    ensures LogUpTo(lines, k) <= LogUpTo(lines, n)
  {
    if k < n { LogPrefix(lines, k, n - 1); }
  }

  /** Later appends change neither the bytes nor the hashes of earlier lines. */
  lemma {:induction false} Extend(step: (Hash, seq<byte>) -> Hash, lines: seq<Line>, more: seq<Line>, n: nat)
    requires n <= |lines|
    ensures LogUpTo(lines + more, n) == LogUpTo(lines, n)
    ensures ChainUpTo(step, lines + more, n) == ChainUpTo(step, lines, n)
    ensures Cursor(lines + more, n) == Cursor(lines, n)
  {
    if n > 0 { Extend(step, lines, more, n - 1); }
  }

  /** Line k occupies the bytes between its cursor and the next one. */
  lemma LineInLog(lines: seq<Line>, k: nat)
    requires k < |lines|
    ensures Cursor(lines, k + 1) == Cursor(lines, k) + 2 + |lines[k]| <= |Log(lines)|
    ensures Log(lines)[Cursor(lines, k)..Cursor(lines, k + 1)] == Record(lines[k])
  {
    LogPrefix(lines, k + 1, |lines|);
    var before, log := LogUpTo(lines, k), Log(lines);
    assert log[..|before| + 2 + |lines[k]|] == before + Record(lines[k]);
  }

  lemma LogOfNothing(lines: seq<Line>)
    ensures Log(lines) == [] <==> lines == []
  {
    if lines != [] { assert |Log(lines)| >= |Record(lines[|lines| - 1])|; }
  }

  /** The cursors cut the file into consecutive lines from 0 to its current size. */
  lemma CursorsTile(lines: seq<Line>)
    ensures Cursor(lines, 0) == 0 && Cursor(lines, |lines|) == |Log(lines)|
    ensures forall k :: 0 <= k < |lines| ==> Cursor(lines, k + 1) == Cursor(lines, k) + 2 + |lines[k]|
  {
    forall k | 0 <= k < |lines| ensures Cursor(lines, k + 1) == Cursor(lines, k) + 2 + |lines[k]| {
      LineInLog(lines, k);
    }
  }

  /** Reading at the cursor of a line gives that line exactly when it has the minimal size, and nothing else otherwise. */
  lemma ReadBack(step: (Hash, seq<byte>) -> Hash, disk: seq<byte>, lines: seq<Line>, k: nat)
    requires Holds(step, disk, lines) && k < |lines|
    ensures LineAt(disk, |Log(lines)|, Cursor(lines, k)) == Ok(lines[k]) <==> Readable(lines[k])
    ensures LineAt(disk, |Log(lines)|, Cursor(lines, k)).Ok? <==> Readable(lines[k])
  {
    var c, line, log := Cursor(lines, k), lines[k], Log(lines);
    LineInLog(lines, k);
    assert disk[..|log|] == log;
    assert disk[c..c + 2 + |line|] == log[c..c + 2 + |line|] == Record(line);
    RecordAt(disk, |log|, c, line);
  }

  lemma RecordAt(disk: seq<byte>, size: nat, c: nat, line: Line)
    requires |line| < 0x1_0000 && c + 2 + |line| <= size && size + HASH_SIZE <= |disk|
    requires disk[c..c + 2 + |line|] == Record(line)
    ensures LineAt(disk, size, c) == Ok(line) <==> Readable(line)
    ensures LineAt(disk, size, c).Ok? <==> Readable(line)
  {
    hide LittleEndian, FromLittleEndian;
    PartOf(disk, c, LittleEndian(|line|, 2), line);
    SmallPowers();
    LittleEndianValue(|line|, 2);
  }

  lemma PartOf(disk: seq<byte>, c: nat, a: seq<byte>, b: seq<byte>)
    requires c + |a| + |b| <= |disk| && disk[c..c + |a| + |b|] == a + b
    ensures disk[c..c + |a|] == a && disk[c + |a|..c + |a| + |b|] == b
  {
    var part := disk[c..c + |a| + |b|];
    assert part[..|a|] == a && part[|a|..] == b;
    assert part[..|a|] == disk[c..c + |a|] && part[|a|..] == disk[c + |a|..c + |a| + |b|];
  }

  /** A cursor handed out when the file held fewer lines keeps naming the same line for good. */
  lemma OldCursorsStillRead(step: (Hash, seq<byte>) -> Hash, disk: seq<byte>, earlier: seq<Line>, more: seq<Line>, k: nat)
    requires Holds(step, disk, earlier + more) && k < |earlier|
    ensures LineAt(disk, |Log(earlier + more)|, Cursor(earlier, k)) == Ok(earlier[k]) <==> Readable(earlier[k])
  {
    Extend(step, earlier, more, k);
    ReadBack(step, disk, earlier + more, k);
  }

  // ---------------------------------------------------------------- the file object

  class Block {
    const hashStep: (Hash, seq<byte>) -> Hash

    var disk: seq<byte>
    var isOpen: bool
    var position: nat
    var currentFileSize: nat

    ghost var lines: seq<Line>

    ghost predicate Valid()
      reads this
    {
      Holds(hashStep, disk, lines) && currentFileSize == |Log(lines)| && (isOpen ==> position <= |disk|)
    }

    /** The size kept in memory is that of an opened file, whatever the file holds. */
    ghost predicate Sized()
      reads this
    {
      currentFileSize == (if |disk| > HASH_SIZE then |disk| - HASH_SIZE else 0) && (isOpen ==> position <= |disk|)
    }

    lemma ValidIsSized()
      requires Valid()
      ensures Sized()
    {
      LogOfNothing(lines);
    }

    /** A new object over the file another one left behind. */
    constructor (step: (Hash, seq<byte>) -> Hash, content: seq<byte>, ghost written: seq<Line>)
      requires Holds(step, content, written)
      ensures Valid() && hashStep == step && disk == content && lines == written
    {
      hashStep := step;
      disk, lines := content, written;
      isOpen, position, currentFileSize := false, 0, 0;
      new;
      Reopen();
    }

    /** getOpenFile on a closed stream: opened at the end; the size is only set if there is more than a hash. */
    method Reopen()
      requires !isOpen
      modifies `isOpen, `position, `currentFileSize
      ensures isOpen && position == |disk|
      ensures currentFileSize == if |disk| > HASH_SIZE then |disk| - HASH_SIZE else old(currentFileSize)
      ensures Holds(hashStep, disk, lines) && (lines == [] ==> old(currentFileSize) == 0) ==> Valid()
    {
      isOpen, position := true, |disk|;
      if |disk| > HASH_SIZE {
        currentFileSize := |disk| - HASH_SIZE;
      }
      LogOfNothing(lines);
    }

    method GetOpenFile()
      requires Sized()
      modifies `isOpen, `position, `currentFileSize
      ensures Sized() && isOpen && currentFileSize == old(currentFileSize) && (old(Valid()) ==> Valid())
      ensures old(isOpen) ==> position == old(position)
    {
      if !isOpen { Reopen(); }
    }

    /** The cache timeout drops the stream; the size stays in memory. */
    method CallFromTimer(timedOut: bool)
      requires Valid()
      modifies `isOpen
      ensures Valid() && isOpen == (old(isOpen) && !timedOut)
    {
      if timedOut { isOpen := false; }
    }

    method ReadLine(start: nat) returns (r: Result<Line, Error>)
      requires Sized()
      modifies `isOpen, `position, `currentFileSize
      ensures Sized() && isOpen && currentFileSize == old(currentFileSize) && (old(Valid()) ==> Valid())
      ensures r == LineAt(disk, currentFileSize, start)
      ensures r.Ok? ==> position == start + 2 + |r.value|
    {
      GetOpenFile();
      if currentFileSize <= MINIMAL_FILE_SIZE { return Err(EndReaching); }
      if start > currentFileSize - MINIMAL_FILE_SIZE { return Err(EndReaching); }
      if position != start { position := start; }
      var transactionSize := U16At(disk, position);
      position := position + 2;
      if start + transactionSize > currentFileSize { return Err(EndReaching); }
      if transactionSize < MINIMAL_FILE_SIZE { return Err(InvalidReadBlockSize); }
      r := Ok(disk[position..position + transactionSize]);
      position := position + transactionSize;
    }

    /** std::fstream::write at the stream position. */
    method Write(data: seq<byte>)
      requires isOpen && position <= |disk|
      modifies `disk, `position
      ensures position == old(position) + |data| <= |disk|
      ensures disk[..position] == old(disk[..position]) + data
      ensures |disk| == if old(|disk|) > position then old(|disk|) else position
    {
      var rest := if position + |data| < |disk| then disk[position + |data|..] else [];
      disk := disk[..position] + data + rest;
      position := position + |data|;
    }

    method AppendLines(newLines: seq<Line>) returns (cursors: seq<nat>)
      requires Valid() && Fits(newLines)
      modifies this
      ensures Valid() && isOpen && lines == old(lines) + newLines
      ensures |cursors| == |newLines|
      ensures forall k :: old(|lines|) <= k < |lines| ==> Cursor(lines, k) == cursors[k - old(|lines|)]
    {
      hide Holds, Fits, Log, LogUpTo, ChainUpTo;
      ghost var was := |lines|;
      ghost var n := was;
      var hash := StartAppend(newLines);
      cursors := [];
      var i := 0;
      while i < |newLines|
        invariant 0 <= i <= |newLines| && |cursors| == i && n == was + i && lines == old(lines) + newLines
        invariant Appending(hash, n)
        invariant forall k :: was <= k < n ==> Cursor(lines, k) == cursors[k - was]
      {
        cursors := cursors + [position];
        hash := AppendOne(newLines[i], hash, n);
        i, n := i + 1, n + 1;
      }
      FinishAppend(hash);
    }

    /** In the middle of an append: before the position lie the first n lines, behind it at most an old hash. */
    ghost predicate Appending(hash: Hash, n: nat)
      reads this
    {
      isOpen && n <= |lines| && Fits(lines) &&
      position == currentFileSize == Cursor(lines, n) && position <= |disk| <= position + HASH_SIZE &&
      disk[..position] == LogUpTo(lines, n) && hash == ChainUpTo(hashStep, lines, n)
    }

    /** Reads the hash behind the last line and puts the stream there. */
    method StartAppend(ghost newLines: seq<Line>) returns (hash: Hash)
      requires Valid() && Fits(newLines)
      modifies `isOpen, `position, `currentFileSize, `lines
      ensures lines == old(lines) + newLines && Appending(hash, old(|lines|))
    {
      ValidIsSized();
      GetOpenFile();
      hash := ZERO_HASH;
      if currentFileSize > 0 {
        position := currentFileSize;
        hash := disk[position..position + HASH_SIZE];
      }
      LogOfNothing(lines);
      position := currentFileSize;
      Extend(hashStep, lines, newLines, |lines|);
      assert disk[..position] == Log(lines);
      lines := lines + newLines;
    }

    method AppendOne(line: Line, hash: Hash, ghost n: nat) returns (next: Hash)
      requires Appending(hash, n) && n < |lines| && lines[n] == line
      modifies `disk, `position, `currentFileSize
      ensures Appending(next, n + 1)
    {
      Write(LittleEndian(|line|, 2));
      Write(line);
      currentFileSize := currentFileSize + 2 + |line|;
      next := hashStep(hash, line);
      assert disk[..position] == LogUpTo(lines, n) + Record(line);
    }

    method FinishAppend(hash: Hash)
      requires Appending(hash, |lines|)
      modifies `disk, `position
      ensures Valid() && isOpen
    {
      Write(hash);
      assert disk == disk[..position];
    }

    /** The whole file line by line, with the chained hash compared against the one at the stream position. Whatever the file
        holds, lines come back only if the hash behind them is that of these lines. Of a file that is all right all lines come
        back if and only if each of them can be read; else there is an exception, or a tail is missing. */
    method RebuildBlockIndex() returns (r: Result<seq<(nat, Line)>, Error>)
      requires Sized() && currentFileSize > 0
      modifies `isOpen, `position, `currentFileSize
      ensures Sized() && (old(Valid()) ==> Valid())
      ensures r.Ok? ==> OneAfterOther(disk, currentFileSize, r.value) && (r.value != [] ==> HashFollows(hashStep, disk, r.value))
      ensures old(Valid()) ==> (r == Ok(CursorLines(lines)) <==> AllReadable(lines)) && (r.Ok? ==> r.value <= CursorLines(lines))
    {
      hide Fits, LogUpTo, LineAt, Holds, ChainUpTo, OneAfterOther, LinesIn, End, AllReadable, Readable;
      ghost var valid := Valid();
      NothingRebuilt();
      NothingFolded(hashStep, disk, currentFileSize);
      var pushed: seq<(nat, Line)> := [];
      var hash: Hash := ZERO_HASH;
      var fileCursor := 0;
      while fileCursor + MINIMAL_FILE_SIZE <= currentFileSize
        invariant Sized() && currentFileSize == old(currentFileSize) && (valid ==> Valid())
        invariant OneAfterOther(disk, currentFileSize, pushed) && fileCursor == End(pushed)
        invariant hash == Chain(hashStep, LinesIn(pushed))
        invariant valid ==> Rebuilt(lines, pushed, hash, fileCursor) && forall k :: 0 <= k < |pushed| ==> Readable(lines[k])
        invariant pushed != [] ==> isOpen && position == fileCursor
        decreases currentFileSize - fileCursor
      {
        if valid { MoreToRead(hashStep, disk, lines, |pushed|); }
        var line := ReadLine(fileCursor);
        if line.Err? {
          if valid { ReadableOrNot(lines, |pushed|); }
          return Err(line.error);
        }
        if valid { RebuiltStep(lines, pushed, hash, fileCursor); }
        OneMoreRead(hashStep, disk, currentFileSize, pushed, line.value);
        pushed := pushed + [(fileCursor, line.value)];
        hash := hashStep(hash, line.value);
        fileCursor := fileCursor + |line.value| + 2;
      }
      if valid {
        NoMoreToRead(lines, |pushed|);
        if |pushed| == |lines| { AllRead(lines, pushed, hash, fileCursor); }
      }
      GetOpenFile();
      var hash2 := if position + HASH_SIZE <= |disk| then disk[position..position + HASH_SIZE] else [];
      if valid {
        ReadableOrNot(lines, |pushed|);
        if |pushed| == |lines| { HashIsLast(hashStep, disk, lines); }
      }
      if hash == hash2 {
        r := Ok(pushed);
      } else {
        r := Err(HashMismatch);
      }
    }

    /** The rebuild loop stands at the cursor of the first line it has not pushed yet. */
    ghost predicate Rebuilt(lines: seq<Line>, pushed: seq<(nat, Line)>, hash: Hash, fileCursor: nat) {
      var n := |pushed|;
      n <= |lines| && fileCursor == Cursor(lines, n) && pushed == CursorLines(lines)[..n] &&
      hash == ChainUpTo(hashStep, lines, n)
    }

    lemma NothingRebuilt()
      ensures Rebuilt(lines, [], ZERO_HASH, 0)
    {}

    lemma RebuiltStep(lines: seq<Line>, pushed: seq<(nat, Line)>, hash: Hash, fileCursor: nat)
      requires Rebuilt(lines, pushed, hash, fileCursor) && |pushed| < |lines|
      ensures var line := lines[|pushed|];
              Rebuilt(lines, pushed + [(fileCursor, line)], hashStep(hash, line), fileCursor + |line| + 2)
    {}

    lemma AllRead(lines: seq<Line>, pushed: seq<(nat, Line)>, hash: Hash, fileCursor: nat)
      requires Rebuilt(lines, pushed, hash, fileCursor) && |pushed| == |lines|
      ensures pushed == CursorLines(lines) && hash == Chain(hashStep, lines) && fileCursor == |Log(lines)|
    {}
  }

  function End(pairs: seq<(nat, Line)>): nat {
    if pairs == [] then 0 else pairs[|pairs| - 1].0 + 2 + |pairs[|pairs| - 1].1|
  }

  function LinesIn(pairs: seq<(nat, Line)>): (lines: seq<Line>)
    ensures |lines| == |pairs|
  {
    seq(|pairs|, k requires 0 <= k < |pairs| => pairs[k].1)
  }

  /** Lines as they can be read from the beginning of a file, each where the one before ends. */
  ghost predicate OneAfterOther(disk: seq<byte>, size: nat, pairs: seq<(nat, Line)>)
    requires size == 0 || size + HASH_SIZE <= |disk|
  {
    forall k :: 0 <= k < |pairs| ==> pairs[k].0 == End(pairs[..k]) && LineAt(disk, size, pairs[k].0) == Ok(pairs[k].1)
  }

  /** The bytes behind the lines are their chained hash. */
  ghost predicate HashFollows(step: (Hash, seq<byte>) -> Hash, disk: seq<byte>, pairs: seq<(nat, Line)>) {
    End(pairs) + HASH_SIZE <= |disk| && disk[End(pairs)..End(pairs) + HASH_SIZE] == Chain(step, LinesIn(pairs))
  }

  lemma NothingFolded(step: (Hash, seq<byte>) -> Hash, disk: seq<byte>, size: nat)
    requires size == 0 || size + HASH_SIZE <= |disk|
    ensures Chain(step, LinesIn([])) == ZERO_HASH && OneAfterOther(disk, size, []) && End([]) == 0
  {}

  lemma ReadableOrNot(lines: seq<Line>, n: nat)
    requires n <= |lines| && (forall k :: 0 <= k < n ==> Readable(lines[k])) && (n < |lines| ==> !Readable(lines[n]))
    ensures AllReadable(lines) <==> n == |lines|
  {}

  lemma OneMoreRead(step: (Hash, seq<byte>) -> Hash, disk: seq<byte>, size: nat, pairs: seq<(nat, Line)>, line: Line)
    requires size == 0 || size + HASH_SIZE <= |disk|
    requires OneAfterOther(disk, size, pairs) && LineAt(disk, size, End(pairs)) == Ok(line)
    ensures var more := pairs + [(End(pairs), line)];
            OneAfterOther(disk, size, more) && End(more) == End(pairs) + |line| + 2 &&
            Chain(step, LinesIn(more)) == step(Chain(step, LinesIn(pairs)), line)
  {
    hide LineAt;
    var more := pairs + [(End(pairs), line)];
    forall k | 0 <= k < |more| ensures more[k].0 == End(more[..k]) && LineAt(disk, size, more[k].0) == Ok(more[k].1) {
      assert k < |pairs| ==> more[..k] == pairs[..k];
      assert k == |pairs| ==> more[..k] == pairs;
    }
    assert LinesIn(more) == LinesIn(pairs) + [line];
    Extend(step, LinesIn(pairs), [line], |pairs|);
  }

  lemma HashIsLast(step: (Hash, seq<byte>) -> Hash, disk: seq<byte>, lines: seq<Line>)
    requires Holds(step, disk, lines) && lines != []
    ensures var size := |Log(lines)|; size + HASH_SIZE == |disk| && disk[size..size + HASH_SIZE] == Chain(step, lines)
  {}

  /** The file of two lines, byte by byte: lengths in two bytes, the low one first, the lines, and at the end the hash of the
      second line with the hash of the first line with 32 zeros. Lines from 27 bytes on can be read. */
  lemma FileOfTwoLines(step: (Hash, seq<byte>) -> Hash, a: Line, b: Line)
    requires |a| < 0x1_0000 && |b| < 0x1_0000
    ensures var zeros: seq<byte> := seq(32, _ => 0);
            Log([a, b]) + Chain(step, [a, b]) ==
              [|a| % 0x100, |a| / 0x100] + a + [|b| % 0x100, |b| / 0x100] + b + step(step(zeros, a), b)
    ensures Readable(a) <==> |a| >= 27
  {
    TwoBytes(|a|);
    TwoBytes(|b|);
    assert LogUpTo([a, b], 1) == [] + Record(a);
    assert LogUpTo([a, b], 2) == LogUpTo([a, b], 1) + Record(b);
    var zeros: seq<byte> := seq(32, _ => 0);
    assert ZERO_HASH == zeros;
    assert ChainUpTo(step, [a, b], 1) == step(ZERO_HASH, a);
    assert ChainUpTo(step, [a, b], 2) == step(ChainUpTo(step, [a, b], 1), b);
  }

  lemma TwoBytes(n: nat)
    requires n < 0x1_0000
    ensures LittleEndian(n, 2) == [n % 0x100, n / 0x100]
  {
    assert LittleEndian(n / 256, 1) == [n / 256 % 256] + LittleEndian(n / 256 / 256, 0);
  }

  predicate AllReadable(lines: seq<Line>) {
    forall k :: 0 <= k < |lines| ==> Readable(lines[k])
  }

  /** Before the end of the file stands a line, and reading it succeeds exactly if it is readable. */
  lemma MoreToRead(step: (Hash, seq<byte>) -> Hash, disk: seq<byte>, lines: seq<Line>, n: nat)
    requires Holds(step, disk, lines) && n <= |lines| && Cursor(lines, n) < |Log(lines)|
    ensures n < |lines|
    ensures if Readable(lines[n]) then LineAt(disk, |Log(lines)|, Cursor(lines, n)) == Ok(lines[n])
            else LineAt(disk, |Log(lines)|, Cursor(lines, n)).Err?
  {
    ReadBack(step, disk, lines, n);
  }

  /** Too few bytes are left only at the end or before a line that is not readable. */
  lemma NoMoreToRead(lines: seq<Line>, n: nat)
    requires n <= |lines| && Cursor(lines, n) + MINIMAL_FILE_SIZE > |Log(lines)|
    ensures n < |lines| ==> !Readable(lines[n])
  {
    if n < |lines| { LineInLog(lines, n); }
  }

  function CursorLines(lines: seq<Line>): (pairs: seq<(nat, Line)>)
    ensures |pairs| == |lines|
  {
    seq(|lines|, k requires 0 <= k < |lines| => (Cursor(lines, k), lines[k]))
  }
}
