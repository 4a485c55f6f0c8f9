/** The binary block index file of src/model/files/BlockIndex.cpp and BlockIndex.h: tagged year, month and data records
    and a hash at the end, written to and read from the bounded buffer of src/lib/VirtualFile.cpp. */
module IndexFormat {
  import opened ByteCodec
  import opened Numerals

  const YEAR_BLOCK: byte := 0xad
  const MONTH_BLOCK: byte := 0x50
  const DATA_BLOCK: byte := 0xdd
  const HASH_BLOCK: byte := 0x17
  const HASH_SIZE := 32

  type Hash = h: seq<byte> | |h| == HASH_SIZE witness seq(32, i => 0)

  /** The streamed hash of the concatenation of its inputs, and which bytes are transaction types. */
  datatype Library = Library(hash: seq<byte> -> Hash, isType: byte -> bool)

  /** A year or a month; both fit 16 bits. */
  type Period = x: int | -0x8000 <= x < 0x8000

  datatype Block =
    | YearBlock(year: Period)
    | MonthBlock(month: Period)
    | DataBlock(transactionNr: int, fileCursor: int, transactionType: byte, coinCommunityIdIndex: int, addressIndices: seq<int>)

  datatype Error = BufferOverflow | UnknownTransactionType | CorruptedCursor | HashMismatch

  /** One call of the receiver: a data record with the year and month it stands under. */
  datatype Call = Call(year: Period, month: Period, data: Block)

  // ---------------------------------------------------------------- records as bytes

  /** Values that the fields of a record can hold: 16-bit years, 8-bit months, 64-bit numbers, 32-bit cursors and indices. */
  predicate Storable(b: Block) {
    match b
    case YearBlock(_) => true
    case MonthBlock(month) => 0 <= month < 0x100
    case DataBlock(nr, cursor, _, coin, addresses) =>
      0 <= nr < 0x1_0000_0000_0000_0000 && -0x8000_0000 <= cursor < 0x8000_0000 && 0 <= coin < 0x1_0000_0000 &&
      |addresses| < 0x100 && forall i :: 0 <= i < |addresses| ==> 0 <= addresses[i] < 0x1_0000_0000
  }

  /** Two's complement in little-endian order. */
  function Encode(n: int, width: nat): (s: seq<byte>)
    ensures |s| == width
  {
    PowPositive(256, width);
    LittleEndian(if n < 0 then n % Pow(256, width) else n, width)
  }

  function Unsigned(s: seq<byte>): int {
    FromLittleEndian(s)
  }

  function Signed(s: seq<byte>): int {
    var n := FromLittleEndian(s);
    if 2 * n < Pow(256, |s|) then n else n - Pow(256, |s|)
  }

  /** The first n addresses, four bytes each. */
  function EncodeAddresses(addresses: seq<int>, n: nat): (s: seq<byte>)
    requires n <= |addresses|
    ensures |s| == 4 * n
  {
    if n == 0 then [] else EncodeAddresses(addresses, n - 1) + Encode(addresses[n - 1], 4)
  }

  function Tag(b: Block): byte {
    match b
    case YearBlock(_) => YEAR_BLOCK
    case MonthBlock(_) => MONTH_BLOCK
    case DataBlock(_, _, _, _, _) => DATA_BLOCK
  }

  /** What writeIntoFile writes behind the tag. */
  function Body(b: Block): seq<byte>
    requires Storable(b)
  {
    match b
    case YearBlock(year) => Encode(year, 2)
    case MonthBlock(month) => Encode(month, 1)
    case DataBlock(nr, cursor, transactionType, coin, addresses) =>
      Encode(nr, 8) + Encode(cursor, 4) + [transactionType] + Encode(coin, 4) + [|addresses|] +
      EncodeAddresses(addresses, |addresses|)
  }

  /** What updateHash adds to the hash: everything but the transaction type. */
  function Hashed(b: Block): seq<byte>
    requires Storable(b)
  {
    match b
    case YearBlock(year) => [YEAR_BLOCK] + Encode(year, 2)
    case MonthBlock(month) => [MONTH_BLOCK] + Encode(month, 1)
    case DataBlock(nr, cursor, transactionType, coin, addresses) =>
      [DATA_BLOCK] + Encode(nr, 8) + Encode(cursor, 4) + Encode(coin, 4) + [|addresses|] +
      EncodeAddresses(addresses, |addresses|)
  }

  function Size(b: Block): nat {
    match b
    case YearBlock(_) => 3
    case MonthBlock(_) => 2
    case DataBlock(_, _, _, _, addresses) => 1 + 8 + 4 + 1 + 4 + 1 + 4 * |addresses|
  }

  lemma SizeIsRight(b: Block)
    requires Storable(b)
    ensures |Body(b)| + 1 == Size(b)
  {}

  // ---------------------------------------------------------------- records from bytes

  /** The addresses in the first 4 * n bytes. */
  function Addresses(s: seq<byte>, n: nat): (a: seq<int>)
    requires |s| >= 4 * n
    ensures |a| == n
  {
    if n == 0 then [] else Addresses(s, n - 1) + [Unsigned(s[4 * (n - 1)..4 * n])]
  }

  /** readFromFile of a data record: the record and the number of bytes behind the tag. */
  function ParseData(lib: Library, s: seq<byte>): Result<(Block, nat), Error> {
    if |s| < 13 then Err(BufferOverflow)
    else if !lib.isType(s[12]) then Err(UnknownTransactionType)
    else if |s| < 18 || |s| < 18 + 4 * (s[17] as int) then Err(BufferOverflow)
    else
      Ok((DataBlock(Unsigned(s[..8]), Signed(s[8..12]), s[12], Unsigned(s[13..17]), Addresses(s[18..], s[17])),
          18 + 4 * (s[17] as int)))
  }

  lemma {:induction false} AddressesOfEncoded(addresses: seq<int>, n: nat, rest: seq<byte>)
    requires n <= |addresses| && forall i :: 0 <= i < |addresses| ==> 0 <= addresses[i] < 0x1_0000_0000
    ensures Addresses(EncodeAddresses(addresses, n) + rest, n) == addresses[..n]
  {
    if n > 0 {
      var front, last := EncodeAddresses(addresses, n - 1), Encode(addresses[n - 1], 4);
      assert EncodeAddresses(addresses, n) + rest == front + (last + rest);
      AddressesOfEncoded(addresses, n - 1, last + rest);
      assert (front + (last + rest))[4 * (n - 1)..4 * n] == last;
      SmallPowers();
      UnsignedOfEncoded(addresses[n - 1], 4);
    }
  }

  lemma UnsignedOfEncoded(n: int, width: nat)
    requires 0 <= n < Pow(256, width)
    ensures Unsigned(Encode(n, width)) == n
  {
    LittleEndianValue(n, width);
  }

  lemma SignedOfEncoded(n: int, width: nat)
    requires width > 0 && 0 <= 2 * n + Pow(256, width) && 2 * n < Pow(256, width)
    ensures Signed(Encode(n, width)) == n
  {
    var p := Pow(256, width);
    if n < 0 {
      DivMod(-1, n + p, p);
      assert -1 * p + (n + p) == n;
      LittleEndianValue(n + p, width);
    } else {
      LittleEndianValue(n, width);
    }
  }

  /** A data record is read back from its bytes, whatever follows them. */
  lemma DataReadBack(lib: Library, b: Block, rest: seq<byte>)
    requires Storable(b) && b.DataBlock? && lib.isType(b.transactionType)
    ensures ParseData(lib, Body(b) + rest) == Ok((b, |Body(b)|))
  {
    hide Encode, EncodeAddresses, Addresses, FromLittleEndian, Pow, Hashed;
    var addresses := b.addressIndices;
    var tail := EncodeAddresses(addresses, |addresses|);
    var nr, cursor, coin := Encode(b.transactionNr, 8), Encode(b.fileCursor, 4), Encode(b.coinCommunityIdIndex, 4);
    assert Body(b) + rest == nr + cursor + [b.transactionType] + coin + [|addresses|] + (tail + rest);
    Parts(nr, cursor, b.transactionType, coin, |addresses|, tail + rest);
    SmallPowers();
    UnsignedOfEncoded(b.transactionNr, 8);
    UnsignedOfEncoded(b.coinCommunityIdIndex, 4);
    SignedOfEncoded(b.fileCursor, 4);
    AddressesOfEncoded(addresses, |addresses|, rest);
    assert addresses[..|addresses|] == addresses;
  }

  lemma Parts(nr: seq<byte>, cursor: seq<byte>, t: byte, coin: seq<byte>, n: byte, tail: seq<byte>)
    requires |nr| == 8 && |cursor| == 4 && |coin| == 4
    ensures var s := nr + cursor + [t] + coin + [n] + tail;
            |s| == 18 + |tail| && s[..8] == nr && s[8..12] == cursor && s[12] == t && s[13..17] == coin && s[17] == n &&
            s[18..] == tail
  {}

  // ---------------------------------------------------------------- whole files

  predicate AllStorable(blocks: seq<Block>) {
    forall i :: 0 <= i < |blocks| ==> Storable(blocks[i])
  }

  /** The bytes of the records from the n-th on. */
  function BytesFrom(blocks: seq<Block>, n: nat): seq<byte>
    requires AllStorable(blocks) && n <= |blocks|
    decreases |blocks| - n
  {
    if n == |blocks| then [] else [Tag(blocks[n])] + Body(blocks[n]) + BytesFrom(blocks, n + 1)
  }

  /** What has gone into the hash after the first n records. */
  function HashedUpTo(blocks: seq<Block>, n: nat): seq<byte>
    requires AllStorable(blocks) && n <= |blocks|
  {
    if n == 0 then [] else HashedUpTo(blocks, n - 1) + Hashed(blocks[n - 1])
  }

  function FileOf(lib: Library, blocks: seq<Block>): seq<byte>
    requires AllStorable(blocks)
  {
    BytesFrom(blocks, 0) + [HASH_BLOCK] + lib.hash(HashedUpTo(blocks, |blocks|))
  }

  function SumSize(blocks: seq<Block>, n: nat): nat
    requires n <= |blocks|
    decreases |blocks| - n
  {
    if n == |blocks| then 0 else Size(blocks[n]) + SumSize(blocks, n + 1)
  }

  /** Year and month after the first n records, starting from the values the reader starts with. */
  function YearAt(blocks: seq<Block>, n: nat): Period
    requires n <= |blocks|
  {
    if n == 0 then 0 else if blocks[n - 1].YearBlock? then blocks[n - 1].year else YearAt(blocks, n - 1)
  }

  function MonthAt(blocks: seq<Block>, n: nat): Period
    requires n <= |blocks|
  {
    if n == 0 then 0 else if blocks[n - 1].MonthBlock? then blocks[n - 1].month else MonthAt(blocks, n - 1)
  }

  /** The calls a reader owes for the first n records. */
  function Delivered(blocks: seq<Block>, n: nat): seq<Call>
    requires n <= |blocks|
  {
    if n == 0 then []
    else if blocks[n - 1].DataBlock?
    then Delivered(blocks, n - 1) + [Call(YearAt(blocks, n - 1), MonthAt(blocks, n - 1), blocks[n - 1])]
    else Delivered(blocks, n - 1)
  }

  /** Records put behind others change nothing about what is delivered for those. */
  lemma {:induction false} PrefixStays(a: seq<Block>, b: seq<Block>, n: nat)
    requires n <= |a|
    ensures YearAt(a + b, n) == YearAt(a, n) && MonthAt(a + b, n) == MonthAt(a, n) && Delivered(a + b, n) == Delivered(a, n)
  {
    if n > 0 { PrefixStays(a, b, n - 1); }
  }

  // ---------------------------------------------------------------- reader

  /** The state of the reading loop. */
  datatype Reader = Reader(year: Period, month: Period, hashed: seq<byte>, calls: seq<Call>)

  function TakeBlock(r: Reader, b: Block): Reader
    requires Storable(b)
  {
    match b
    case YearBlock(year) => r.(year := year, hashed := r.hashed + Hashed(b))
    case MonthBlock(month) => r.(month := month, hashed := r.hashed + Hashed(b))
    case DataBlock(_, _, _, _, _) =>
      r.(hashed := r.hashed + Hashed(b), calls := r.calls + [Call(r.year, r.month, b)])
  }

  lemma {:induction false} FromLittleEndianBound(s: seq<byte>)
    ensures FromLittleEndian(s) < Pow(256, |s|)
  {
    if s != [] { FromLittleEndianBound(s[1..]); }
  }

  function SignedYear(s: seq<byte>): Period
    requires |s| == 2
  {
    SmallPowers();
    FromLittleEndianBound(s);
    Signed(s)
  }

  /** What stands at the beginning of some bytes of the file. */
  datatype Item = Record(block: Block, length: nat) | Trailer(hash: Hash) | Unknown | Fails(error: Error)

  function ParseItem(lib: Library, s: seq<byte>): (item: Item)
    requires s != []
    ensures item.Record? ==> 0 < item.length <= |s|
  {
    if s[0] == DATA_BLOCK then
      match ParseData(lib, s[1..])
      case Ok((b, n)) => Record(b, 1 + n)
      case Err(e) => Fails(e)
    else if s[0] == MONTH_BLOCK then if |s| < 2 then Fails(BufferOverflow) else Record(MonthBlock(s[1]), 2)
    else if s[0] == YEAR_BLOCK then if |s| < 3 then Fails(BufferOverflow) else Record(YearBlock(SignedYear(s[1..3])), 3)
    else if s[0] == HASH_BLOCK then if |s| < 1 + HASH_SIZE then Fails(BufferOverflow) else Trailer(s[1..1 + HASH_SIZE])
    else Unknown
  }

  lemma {:induction false} AddressesBound(s: seq<byte>, n: nat)
    requires |s| >= 4 * n
    ensures forall i :: 0 <= i < n ==> 0 <= Addresses(s, n)[i] < 0x1_0000_0000
  {
    if n > 0 {
      AddressesBound(s, n - 1);
      SmallPowers();
      FromLittleEndianBound(s[4 * (n - 1)..4 * n]);
    }
  }

  lemma ParsedIsStorable(lib: Library, s: seq<byte>)
    requires s != [] && ParseItem(lib, s).Record?
    ensures Storable(ParseItem(lib, s).block)
  {
    SmallPowers();
    if s[0] == DATA_BLOCK {
      DataIsStorable(lib, s[1..]);
    }
  }

  lemma DataIsStorable(lib: Library, s: seq<byte>)
    requires ParseData(lib, s).Ok?
    ensures Storable(ParseData(lib, s).value.0)
  {
    SmallPowers();
    FromLittleEndianBound(s[..8]);
    FromLittleEndianBound(s[8..12]);
    FromLittleEndianBound(s[13..17]);
    AddressesBound(s[18..], s[17]);
  }

  /** The reading loop. Without a trailer the hash is compared with memory that was never set, which counts as a mismatch. */
  function ParseFrom(lib: Library, s: seq<byte>, r: Reader): (Reader, Result<bool, Error>)
    decreases |s|
  {
    if s == [] then (r, Err(HashMismatch)) else
      match ParseItem(lib, s)
      case Fails(e) => (r, Err(e))
      case Unknown => (r, Err(HashMismatch))
      case Trailer(h) => (r, if h == lib.hash(r.hashed) then Ok(true) else Err(HashMismatch))
      case Record(b, n) =>
        if b.DataBlock? && b.fileCursor < 0 then (r, Err(CorruptedCursor)) else
          ParsedIsStorable(lib, s);
          ParseFrom(lib, s[n..], TakeBlock(r, b))
  }

  const START := Reader(0, 0, [], [])

  /** readFromFile on a whole file; an empty file is reported as not found. */
  function ParseFile(lib: Library, content: seq<byte>): (Reader, Result<bool, Error>) {
    if content == [] then (START, Ok(false)) else ParseFrom(lib, content, START)
  }

  // ---------------------------------------------------------------- round trip

  /** The reader refuses records with a negative cursor or an unknown type. */
  predicate Acceptable(lib: Library, b: Block) {
    b.DataBlock? ==> b.fileCursor >= 0 && lib.isType(b.transactionType)
  }

  function ReaderAt(blocks: seq<Block>, n: nat): Reader
    requires AllStorable(blocks) && n <= |blocks|
  {
    Reader(YearAt(blocks, n), MonthAt(blocks, n), HashedUpTo(blocks, n), Delivered(blocks, n))
  }

  lemma ItemReadBack(lib: Library, b: Block, rest: seq<byte>)
    requires Storable(b)
    ensures var item := ParseItem(lib, [Tag(b)] + Body(b) + rest);
            if b.DataBlock? && !lib.isType(b.transactionType) then item.Fails? else item == Record(b, Size(b))
    ensures ([Tag(b)] + Body(b) + rest)[Size(b)..] == rest
  {
    hide Body, ParseData;
    SizeIsRight(b);
    var s := [Tag(b)] + Body(b) + rest;
    assert s[1..] == Body(b) + rest;
    match b
    case YearBlock(year) => YearReadBack(year, rest);
    case MonthBlock(month) => MonthReadBack(month, rest);
    case DataBlock(_, _, transactionType, _, _) =>
      if lib.isType(transactionType) {
        DataReadBack(lib, b, rest);
      } else {
        TypeRefused(lib, b, rest);
      }
  }

  lemma YearReadBack(year: Period, rest: seq<byte>)
    requires Storable(YearBlock(year))
    ensures Body(YearBlock(year)) == Encode(year, 2) && Signed((Encode(year, 2) + rest)[..2]) == year
    ensures ([YEAR_BLOCK] + Encode(year, 2) + rest)[1..3] == (Encode(year, 2) + rest)[..2]
  {
    SmallPowers();
    SignedOfEncoded(year, 2);
    assert (Encode(year, 2) + rest)[..2] == Encode(year, 2);
  }

  lemma MonthReadBack(month: Period, rest: seq<byte>)
    requires Storable(MonthBlock(month))
    ensures Body(MonthBlock(month)) == [month]
  {
    assert LittleEndian(month, 1) == [month % 256] + LittleEndian(month / 256, 0);
  }

  lemma TypeRefused(lib: Library, b: Block, rest: seq<byte>)
    requires Storable(b) && b.DataBlock? && !lib.isType(b.transactionType)
    ensures ParseData(lib, Body(b) + rest).Err?
  {
    hide Encode, EncodeAddresses, Addresses, FromLittleEndian, Pow, Hashed;
    var nr, cursor, coin := Encode(b.transactionNr, 8), Encode(b.fileCursor, 4), Encode(b.coinCommunityIdIndex, 4);
    var tail := EncodeAddresses(b.addressIndices, |b.addressIndices|);
    assert Body(b) + rest == nr + cursor + [b.transactionType] + coin + [|b.addressIndices|] + (tail + rest);
    Parts(nr, cursor, b.transactionType, coin, |b.addressIndices|, tail + rest);
  }

  /** Reading the records from the n-th on and a trailer with any hash; what stands behind the trailer is ignored. */
  lemma {:induction false} ReadsBackWith(lib: Library, blocks: seq<Block>, n: nat, h: Hash, rest: seq<byte>)
    requires AllStorable(blocks) && n <= |blocks|
    ensures var (r, result) := ParseFrom(lib, BytesFrom(blocks, n) + ([HASH_BLOCK] + h + rest), ReaderAt(blocks, n));
            (result.Ok? <==> (forall i :: n <= i < |blocks| ==> Acceptable(lib, blocks[i])) &&
                             h == lib.hash(HashedUpTo(blocks, |blocks|))) &&
            (result.Ok? ==> r == ReaderAt(blocks, |blocks|) && result == Ok(true))
    decreases |blocks| - n
  {
    hide Body, Hashed, Tag, Size, Storable, BytesFrom, HashedUpTo, ReaderAt, TakeBlock, ParseFrom, Acceptable;
    var end := [HASH_BLOCK] + h + rest;
    if n == |blocks| {
      NoMoreBytes(blocks);
      assert BytesFrom(blocks, n) + end == end;
      TrailerParses(lib, ReaderAt(blocks, n), h, rest);
      ReaderHashed(blocks, n);
    } else {
      var more := BytesFrom(blocks, n + 1) + end;
      NextBytes([], blocks, n);
      assert BytesFrom(blocks, n) == [Tag(blocks[n])] + Body(blocks[n]) + BytesFrom(blocks, n + 1);
      assert BytesFrom(blocks, n) + end == [Tag(blocks[n])] + Body(blocks[n]) + more;
      ReadsBackWith(lib, blocks, n + 1, h, rest);
      ParseStep(lib, blocks[n], more, ReaderAt(blocks, n));
      ReaderMoves(blocks, n);
    }
  }

  lemma TrailerParses(lib: Library, r: Reader, h: Hash, rest: seq<byte>)
    ensures ParseFrom(lib, [HASH_BLOCK] + h + rest, r) == (r, if h == lib.hash(r.hashed) then Ok(true) else Err(HashMismatch))
  {
    hide ParseData;
    assert ParseItem(lib, [HASH_BLOCK] + h + rest) == Trailer(h) by {
      assert ([HASH_BLOCK] + h + rest)[1..1 + HASH_SIZE] == h;
    }
  }

  lemma ReaderHashed(blocks: seq<Block>, n: nat)
    requires AllStorable(blocks) && n <= |blocks|
    ensures ReaderAt(blocks, n).hashed == HashedUpTo(blocks, n)
  {}

  lemma ReaderMoves(blocks: seq<Block>, n: nat)
    requires AllStorable(blocks) && n < |blocks|
    ensures TakeBlock(ReaderAt(blocks, n), blocks[n]) == ReaderAt(blocks, n + 1)
  {}

  lemma ParseStep(lib: Library, b: Block, rest: seq<byte>, r: Reader)
    requires Storable(b)
    ensures var s := [Tag(b)] + Body(b) + rest;
            if Acceptable(lib, b) then ParseFrom(lib, s, r) == ParseFrom(lib, rest, TakeBlock(r, b))
            else ParseFrom(lib, s, r).1.Err?
  {
    hide Body, ParseItem;
    ItemReadBack(lib, b, rest);
  }

  /** A written file is read back with one call per data record, in order, each with its fields and the year and month
      it stands under, and with the right hash, exactly if every cursor is non-negative and every type is known; whatever
      stands behind it. */
  lemma FileReadsBackBefore(lib: Library, blocks: seq<Block>, rest: seq<byte>)
    requires AllStorable(blocks)
    ensures var (r, result) := ParseFile(lib, FileOf(lib, blocks) + rest);
            (result.Ok? <==> forall i :: 0 <= i < |blocks| ==> Acceptable(lib, blocks[i])) &&
            (result.Ok? ==> result == Ok(true) && r.calls == Delivered(blocks, |blocks|))
  {
    hide Acceptable, AllStorable, HashedUpTo, BytesFrom, Delivered, ParseFrom, ParseFile;
    var h := lib.hash(HashedUpTo(blocks, |blocks|));
    ReadsBackWith(lib, blocks, 0, h, rest);
    WholeFile(lib, blocks, h, rest);
  }

  lemma WrittenFileReadsBack(lib: Library, blocks: seq<Block>)
    requires AllStorable(blocks)
    ensures var (r, result) := ParseFile(lib, FileOf(lib, blocks));
            (result.Ok? <==> forall i :: 0 <= i < |blocks| ==> Acceptable(lib, blocks[i])) &&
            (result.Ok? ==> result == Ok(true) && r.calls == Delivered(blocks, |blocks|))
  {
    hide Acceptable, AllStorable, FileOf, Delivered, ParseFile;
    FileReadsBackBefore(lib, blocks, []);
    assert FileOf(lib, blocks) + [] == FileOf(lib, blocks);
  }

  // ---------------------------------------------------------------- what the hash covers

  function WithType(b: Block, t: byte): Block {
    if b.DataBlock? then b.(transactionType := t) else b
  }

  /** The same records but for the transaction types. */
  ghost predicate SameButTypes(a: seq<Block>, b: seq<Block>) {
    |a| == |b| && forall i :: 0 <= i < |a| ==> WithType(a[i], 0) == WithType(b[i], 0)
  }

  /** Different values have different bytes in their width. */
  lemma SignedBytesDiffer(m: int, n: int, width: nat)
    requires width > 0 && 0 <= 2 * m + Pow(256, width) && 2 * m < Pow(256, width)
    requires 0 <= 2 * n + Pow(256, width) && 2 * n < Pow(256, width) && Encode(m, width) == Encode(n, width)
    ensures m == n
  {
    SignedOfEncoded(m, width);
    SignedOfEncoded(n, width);
  }

  lemma UnsignedBytesDiffer(m: int, n: int, width: nat)
    requires 0 <= m < Pow(256, width) && 0 <= n < Pow(256, width) && Encode(m, width) == Encode(n, width)
    ensures m == n
  {
    UnsignedOfEncoded(m, width);
    UnsignedOfEncoded(n, width);
  }

  lemma AddressBytesDiffer(a: seq<int>, b: seq<int>)
    requires |a| == |b| && EncodeAddresses(a, |a|) == EncodeAddresses(b, |b|)
    requires forall i :: 0 <= i < |a| ==> 0 <= a[i] < 0x1_0000_0000 && 0 <= b[i] < 0x1_0000_0000
    ensures a == b
  {
    hide Encode, EncodeAddresses, Addresses;
    var s := EncodeAddresses(a, |a|) + [];
    AddressesOfEncoded(a, |a|, []);
    AddressesOfEncoded(b, |b|, []);
    assert s == EncodeAddresses(b, |b|) + [] && Addresses(s, |a|) == a[..|a|] && Addresses(s, |b|) == b[..|b|];
    assert a[..|a|] == a && b[..|b|] == b;
  }

  /** What is hashed of a data record, cut into its fields. */
  lemma HashedParts(b: Block, rest: seq<byte>)
    requires Storable(b) && b.DataBlock?
    ensures var s := Hashed(b) + rest; var n := |b.addressIndices|;
            |s| >= 18 + 4 * n && s[0] == DATA_BLOCK && s[1..9] == Encode(b.transactionNr, 8) &&
            s[9..13] == Encode(b.fileCursor, 4) && s[13..17] == Encode(b.coinCommunityIdIndex, 4) && s[17] == n &&
            s[18..18 + 4 * n] == EncodeAddresses(b.addressIndices, n) && s[18 + 4 * n..] == rest
  {
    hide Encode, EncodeAddresses;
    HashedCut(Encode(b.transactionNr, 8), Encode(b.fileCursor, 4), Encode(b.coinCommunityIdIndex, 4), |b.addressIndices|,
              EncodeAddresses(b.addressIndices, |b.addressIndices|), rest);
  }

  lemma HashedCut(nr: seq<byte>, cursor: seq<byte>, coin: seq<byte>, n: byte, addresses: seq<byte>, rest: seq<byte>)
    requires |nr| == 8 && |cursor| == 4 && |coin| == 4
    ensures var s := [DATA_BLOCK] + nr + cursor + coin + [n] + addresses + rest; var end := 18 + |addresses|;
            |s| >= end && s[0] == DATA_BLOCK && s[1..9] == nr && s[9..13] == cursor && s[13..17] == coin && s[17] == n &&
            s[18..end] == addresses && s[end..] == rest
  {}

  lemma DataBlocksDiffer(a: Block, b: Block, s: seq<byte>, t: seq<byte>)
    requires Storable(a) && Storable(b) && a.DataBlock? && b.DataBlock? && Hashed(a) + s == Hashed(b) + t
    ensures WithType(a, 0) == WithType(b, 0) && s == t
  {
    hide Encode, EncodeAddresses, Hashed, Pow;
    HashedParts(a, s);
    HashedParts(b, t);
    SmallPowers();
    UnsignedBytesDiffer(a.transactionNr, b.transactionNr, 8);
    SignedBytesDiffer(a.fileCursor, b.fileCursor, 4);
    UnsignedBytesDiffer(a.coinCommunityIdIndex, b.coinCommunityIdIndex, 4);
    AddressBytesDiffer(a.addressIndices, b.addressIndices);
  }

  lemma PeriodsDiffer(a: Block, b: Block, s: seq<byte>, t: seq<byte>)
    requires Storable(a) && Storable(b) && !a.DataBlock? && !b.DataBlock? && Hashed(a) + s == Hashed(b) + t
    ensures a == b && s == t
  {
    hide Encode, Pow;
    var all := Hashed(a) + s;
    assert all[0] == Tag(a) && all[0] == Tag(b);
    var n := |Hashed(a)|;
    assert all[1..n] == Hashed(a)[1..] && all[1..n] == Hashed(b)[1..] && all[n..] == s && all[n..] == t;
    SmallPowers();
    match a
    case YearBlock(year) => SignedBytesDiffer(year, b.year, 2);
    case MonthBlock(month) => UnsignedBytesDiffer(month, b.month, 1);
  }

  /** What is hashed of a record tells where it ends, which record it is, and everything in it but the transaction type. */
  lemma HashedDiffer(a: Block, b: Block, s: seq<byte>, t: seq<byte>)
    requires Storable(a) && Storable(b) && Hashed(a) + s == Hashed(b) + t
    ensures WithType(a, 0) == WithType(b, 0) && s == t
  {
    hide Encode, EncodeAddresses;
    assert (Hashed(a) + s)[0] == Tag(a) && (Hashed(b) + t)[0] == Tag(b);
    if a.DataBlock? { DataBlocksDiffer(a, b, s, t); } else { PeriodsDiffer(a, b, s, t); }
  }

  /** What goes into the hash from the n-th record on. */
  function HashedFrom(blocks: seq<Block>, n: nat): seq<byte>
    requires AllStorable(blocks) && n <= |blocks|
    decreases |blocks| - n
  {
    if n == |blocks| then [] else Hashed(blocks[n]) + HashedFrom(blocks, n + 1)
  }

  lemma {:induction false} HashedMeet(blocks: seq<Block>, n: nat)
    requires AllStorable(blocks) && n <= |blocks|
    ensures HashedUpTo(blocks, n) + HashedFrom(blocks, n) == HashedUpTo(blocks, |blocks|)
    decreases |blocks| - n
  {
    hide Hashed;
    if n < |blocks| {
      HashedMeet(blocks, n + 1);
      assert HashedUpTo(blocks, n) + (Hashed(blocks[n]) + HashedFrom(blocks, n + 1)) ==
             HashedUpTo(blocks, n + 1) + HashedFrom(blocks, n + 1);
    }
  }

  lemma {:induction false} HashedFromSame(a: seq<Block>, b: seq<Block>, n: nat)
    requires AllStorable(a) && AllStorable(b) && n <= |a| && n <= |b| && HashedFrom(a, n) == HashedFrom(b, n)
    ensures |a| == |b| && forall i :: n <= i < |a| ==> WithType(a[i], 0) == WithType(b[i], 0)
    decreases |a| - n
  {
    hide Hashed, Storable;
    if n < |a| && n < |b| {
      HashedDiffer(a[n], b[n], HashedFrom(a, n + 1), HashedFrom(b, n + 1));
      HashedFromSame(a, b, n + 1);
    } else if n < |a| {
      SomethingIsHashed(a[n]);
    } else if n < |b| {
      SomethingIsHashed(b[n]);
    }
  }

  lemma SomethingIsHashed(b: Block)
    requires Storable(b)
    ensures Hashed(b) != []
  {}

  lemma HashedWhole(blocks: seq<Block>)
    requires AllStorable(blocks)
    ensures HashedUpTo(blocks, |blocks|) == HashedFrom(blocks, 0)
  {
    HashedMeet(blocks, 0);
    assert [] + HashedFrom(blocks, 0) == HashedFrom(blocks, 0);
  }

  /** What goes into the hash is the same for two queues exactly if they are the same but for the transaction types. */
  lemma HashedSameExactly(a: seq<Block>, b: seq<Block>)
    requires AllStorable(a) && AllStorable(b)
    ensures HashedUpTo(a, |a|) == HashedUpTo(b, |b|) <==> SameButTypes(a, b)
  {
    hide Hashed, HashedUpTo, HashedFrom, AllStorable, WithType;
    HashedWhole(a);
    HashedWhole(b);
    if HashedUpTo(a, |a|) == HashedUpTo(b, |b|) { HashedFromSame(a, b, 0); }
    if SameButTypes(a, b) { SameAreHashedSame(a, b, |a|); }
  }

  lemma {:induction false} SameAreHashedSame(a: seq<Block>, b: seq<Block>, n: nat)
    requires AllStorable(a) && AllStorable(b) && SameButTypes(a, b) && n <= |a|
    ensures HashedUpTo(a, n) == HashedUpTo(b, n)
  {
    hide Hashed, Storable, WithType;
    if n > 0 {
      SameAreHashedSame(a, b, n - 1);
      HashedAlike(a[n - 1], b[n - 1]);
    }
  }

  lemma HashedAlike(a: Block, b: Block)
    requires Storable(a) && Storable(b) && WithType(a, 0) == WithType(b, 0)
    ensures Hashed(a) == Hashed(b)
  {}

  /** A file with the records of one queue and the hash of another is accepted exactly if both have that hash; it then
      delivers the records it holds. */
  lemma ForeignHashAcceptedExactly(lib: Library, a: seq<Block>, b: seq<Block>)
    requires AllStorable(a) && AllStorable(b) && forall i :: 0 <= i < |b| ==> Acceptable(lib, b[i])
    ensures var (r, result) := ParseFile(lib, BytesFrom(b, 0) + [HASH_BLOCK] + lib.hash(HashedUpTo(a, |a|)));
            (result.Ok? <==> lib.hash(HashedUpTo(b, |b|)) == lib.hash(HashedUpTo(a, |a|))) &&
            (result.Ok? ==> result == Ok(true) && r.calls == Delivered(b, |b|))
  {
    hide Acceptable, AllStorable, HashedUpTo, BytesFrom, Delivered, ParseFrom;
    var h := lib.hash(HashedUpTo(a, |a|));
    ReadsBackWith(lib, b, 0, h, []);
    WholeFile(lib, b, h, []);
  }

  lemma WholeFile(lib: Library, blocks: seq<Block>, h: Hash, rest: seq<byte>)
    requires AllStorable(blocks)
    ensures ParseFile(lib, BytesFrom(blocks, 0) + [HASH_BLOCK] + h + rest) ==
              ParseFrom(lib, BytesFrom(blocks, 0) + ([HASH_BLOCK] + h + rest), ReaderAt(blocks, 0))
    ensures ParseFile(lib, BytesFrom(blocks, 0) + [HASH_BLOCK] + h) ==
              ParseFrom(lib, BytesFrom(blocks, 0) + ([HASH_BLOCK] + h + []), ReaderAt(blocks, 0))
  {
    hide BytesFrom, ParseFrom, AllStorable;
    assert BytesFrom(blocks, 0) + [HASH_BLOCK] + h + rest == BytesFrom(blocks, 0) + ([HASH_BLOCK] + h + rest);
    assert BytesFrom(blocks, 0) + [HASH_BLOCK] + h == BytesFrom(blocks, 0) + ([HASH_BLOCK] + h + []);
  }

  /** The check notices a changed file exactly if more has changed than transaction types, as far as the hash tells the
      two files apart. */
  lemma ChangeIsNoticedExactly(lib: Library, a: seq<Block>, b: seq<Block>)
    requires AllStorable(a) && AllStorable(b) && forall i :: 0 <= i < |b| ==> Acceptable(lib, b[i])
    requires lib.hash(HashedUpTo(a, |a|)) == lib.hash(HashedUpTo(b, |b|)) ==> HashedUpTo(a, |a|) == HashedUpTo(b, |b|)
    ensures ParseFile(lib, BytesFrom(b, 0) + [HASH_BLOCK] + lib.hash(HashedUpTo(a, |a|))).1.Ok? <==> SameButTypes(a, b)
  {
    hide Acceptable, Hashed, Storable, SameButTypes, ParseFile;
    ForeignHashAcceptedExactly(lib, a, b);
    HashedSameExactly(a, b);
  }

  // ---------------------------------------------------------------- records byte by byte

  lemma SmallNumber(n: nat, width: nat)
    requires n < 256 && width > 0
    ensures Encode(n, width) == [n] + seq(width - 1, _ => 0)
  {
    LittleEndianOfSmall(n, width);
  }

  lemma {:induction false} LittleEndianOfSmall(n: nat, width: nat)
    requires n < 256 && width > 0
    ensures LittleEndian(n, width) == [n] + seq(width - 1, _ => 0)
  {
    assert n / 256 == 0 && n % 256 == n;
    if width > 1 { LittleEndianOfSmall(0, width - 1); } else { assert LittleEndian(0, 0) == []; }
  }

  /** The records of a file in their bytes: a year of two bytes, a month of one, and a data record with its number in eight
      bytes, its cursor in four, its type in one, the community in four, the count of addresses in one, and the addresses in
      four bytes each, low bytes first. What is hashed is the same without the type. */
  lemma RecordBytes(nr: byte, cursor: byte, t: byte, coin: byte, address: byte, month: byte, low: byte, high: byte)
    requires high < 0x80
    ensures [Tag(YearBlock(low + 0x100 * (high as int)))] + Body(YearBlock(low + 0x100 * (high as int))) == [0xad, low, high]
    ensures [Tag(MonthBlock(month))] + Body(MonthBlock(month)) == [0x50, month]
    ensures var b := DataBlock(nr, cursor, t, coin, [address]);
            Tag(b) == 0xdd &&
            Body(b) == [nr, 0, 0, 0, 0, 0, 0, 0] + [cursor, 0, 0, 0] + [t] + [coin, 0, 0, 0] + [1] + [address, 0, 0, 0] &&
            Hashed(b) == [0xdd] + [nr, 0, 0, 0, 0, 0, 0, 0] + [cursor, 0, 0, 0] + [coin, 0, 0, 0] + [1] + [address, 0, 0, 0]
    ensures HASH_BLOCK == 0x17
  {
    hide Encode, EncodeAddresses, Hashed;
    TwoBytesOf(low, high);
    MonthReadBack(month, []);
    DataBytes(nr, cursor, t, coin, address);
  }

  lemma DataBytes(nr: byte, cursor: byte, t: byte, coin: byte, address: byte)
    ensures var b := DataBlock(nr, cursor, t, coin, [address]);
            Body(b) == [nr, 0, 0, 0, 0, 0, 0, 0] + [cursor, 0, 0, 0] + [t] + [coin, 0, 0, 0] + [1] + [address, 0, 0, 0] &&
            Hashed(b) == [0xdd] + [nr, 0, 0, 0, 0, 0, 0, 0] + [cursor, 0, 0, 0] + [coin, 0, 0, 0] + [1] + [address, 0, 0, 0]
  {
    hide Encode, EncodeAddresses, LittleEndian;
    SmallNumber(nr, 8);
    SmallNumber(cursor, 4);
    SmallNumber(coin, 4);
    OneAddress(address);
    assert Encode(nr, 8) == [nr, 0, 0, 0, 0, 0, 0, 0];
    assert Encode(cursor, 4) == [cursor, 0, 0, 0] && Encode(coin, 4) == [coin, 0, 0, 0];
  }

  lemma TwoBytesOf(low: byte, high: byte)
    ensures Encode(low + 0x100 * (high as int), 2) == [low, high]
  {
    var n := low + 0x100 * (high as int);
    assert n / 256 == high && n % 256 == low;
    LittleEndianOfSmall(high, 1);
  }

  lemma OneAddress(address: byte)
    ensures EncodeAddresses([address], 1) == [address, 0, 0, 0]
  {
    SmallNumber(address, 4);
    assert EncodeAddresses([address], 0) == [];
  }

  // ---------------------------------------------------------------- the buffer

  class VirtualFile {
    const buffer: array<byte>
    var cursor: nat

    ghost predicate Valid()
      reads this
    {
      cursor <= buffer.Length
    }

    constructor (bufferSize: nat)
      ensures Valid() && fresh(buffer) && buffer.Length == bufferSize && cursor == 0
    {
      buffer := new byte[bufferSize];
      cursor := 0;
    }

    constructor FromBytes(content: seq<byte>)
      ensures Valid() && fresh(buffer) && buffer[..] == content && cursor == 0
    {
      buffer := new byte[|content|](i requires 0 <= i < |content| => content[i]);
      cursor := 0;
    }

    /** None stands for the exception. */
    method Read(size: nat) returns (r: Option<seq<byte>>)
      requires Valid()
      modifies `cursor
      ensures Valid()
      ensures if old(cursor) + size > buffer.Length then r == None && cursor == old(cursor)
              else cursor == old(cursor) + size && r == Some(buffer[old(cursor)..cursor])
    {
      if cursor + size > buffer.Length { return None; }
      r := Some(buffer[cursor..cursor + size]);
      cursor := cursor + size;
    }

    /** False stands for the exception. */
    method Write(src: seq<byte>) returns (ok: bool)
      requires Valid()
      modifies `cursor, buffer
      ensures Valid() && (ok <==> old(cursor) + |src| <= buffer.Length)
      ensures cursor == if ok then old(cursor) + |src| else old(cursor)
      ensures buffer[..cursor] == old(buffer[..cursor]) + if ok then src else []
    {
      if cursor + |src| > buffer.Length { return false; }
      forall i | 0 <= i < |src| {
        buffer[cursor + i] := src[i];
      }
      cursor := cursor + |src|;
      return true;
    }

    method SetCursor(dst: nat) returns (ok: bool)
      requires Valid()
      modifies `cursor
      ensures Valid() && (ok <==> dst <= buffer.Length) && cursor == if ok then dst else old(cursor)
    {
      if dst > buffer.Length { return false; }
      cursor := dst;
      return true;
    }
  }

  // ---------------------------------------------------------------- the index file

  class BlockIndexFile {
    const lib: Library
    var dataBlocks: seq<Block>
    var dataBlockSumSize: nat

    ghost predicate Valid()
      reads this
    {
      AllStorable(dataBlocks) && dataBlockSumSize >= SumSize(dataBlocks, 0)
    }

    /** The summed sizes are those of the queue, so the buffer will be filled to its last byte. */
    ghost predicate Exact()
      reads this
    {
      AllStorable(dataBlocks) && dataBlockSumSize == SumSize(dataBlocks, 0)
    }

    constructor (lib: Library)
      ensures Exact() && this.lib == lib && dataBlocks == [] && dataBlockSumSize == 0
    {
      this.lib := lib;
      dataBlocks, dataBlockSumSize := [], 0;
    }

    method AddBlock(b: Block)
      requires Valid() && Storable(b)
      modifies this
      ensures Valid() && dataBlocks == old(dataBlocks) + [b]
      ensures old(Exact()) ==> Exact()
    {
      SumSizeOfAppended(dataBlocks, b, 0);
      dataBlocks := dataBlocks + [b];
      dataBlockSumSize := dataBlockSumSize + Size(b);
    }

    /** Empties the queue into a buffer of the summed size and 33 bytes for the hash: the buffer never overflows, and if
        the sum is that of the queue, it is filled to its last byte. */
    method WriteToFile() returns (content: Result<seq<byte>, Error>)
      requires Valid()
      modifies `dataBlocks
      ensures content == Ok(FileOf(lib, old(dataBlocks))) && dataBlocks == []
      ensures old(Exact()) ==> |content.value| == dataBlockSumSize + HASH_SIZE + 1
    {
      hide Body, Hashed, Size, Tag, Storable, BytesFrom, SumSize;
      ghost var all, n := dataBlocks, 0;
      var hashed: seq<byte> := [];
      var vFile := new VirtualFile(dataBlockSumSize + HASH_SIZE + 1);
      while dataBlocks != []
        invariant n <= |all| && dataBlocks == all[n..] && AllStorable(all)
        invariant vFile.Valid() && fresh(vFile) && fresh(vFile.buffer)
        invariant vFile.buffer[..vFile.cursor] + BytesFrom(all, n) == BytesFrom(all, 0)
        invariant vFile.cursor + SumSize(all, n) == SumSize(all, 0)
        invariant vFile.buffer.Length == dataBlockSumSize + HASH_SIZE + 1 && SumSize(all, 0) <= dataBlockSumSize
        invariant hashed == HashedUpTo(all, n)
        decreases |dataBlocks|
      {
        var block := dataBlocks[0];
        dataBlocks := dataBlocks[1..];
        NextBytes(vFile.buffer[..vFile.cursor], all, n);
        var ok := WriteBlock(vFile, block);
        assert ok;
        hashed := hashed + Hashed(block);
        n := n + 1;
      }
      NoMoreBytes(all);
      assert vFile.buffer[..vFile.cursor] == BytesFrom(all, 0);
      WriteTrailer(vFile, lib.hash(hashed));
      content := Ok(vFile.buffer[..vFile.cursor]);
    }

    method ReadFromFile(content: seq<byte>) returns (r: Reader, result: Result<bool, Error>)
      ensures (r, result) == ParseFile(lib, content)
    {
      hide ParseItem, TakeBlock;
      r := START;
      if content == [] { return r, Ok(false); }
      var vFile := new VirtualFile.FromBytes(content);
      while vFile.cursor < vFile.buffer.Length
        invariant vFile.Valid() && vFile.buffer[..] == content
        invariant ParseFrom(lib, content[vFile.cursor..], r) == ParseFrom(lib, content, START)
        decreases vFile.buffer.Length - vFile.cursor
      {
        ghost var s := content[vFile.cursor..];
        var item := ReadItem(lib, vFile);
        match item
        case Fails(e) => return r, Err(e);
        case Unknown => return r, Err(HashMismatch);
        case Trailer(h) => return r, if h == lib.hash(r.hashed) then Ok(true) else Err(HashMismatch);
        case Record(b, n) =>
          if b.DataBlock? && b.fileCursor < 0 { return r, Err(CorruptedCursor); }
          ParsedIsStorable(lib, s);
          assert content[vFile.cursor..] == s[n..];
          r := TakeBlock(r, b);
      }
      result := Err(HashMismatch);
    }
  }

  lemma {:induction false} SumSizeOfAppended(blocks: seq<Block>, b: Block, n: nat)
    requires n <= |blocks|
    ensures SumSize(blocks + [b], n) == SumSize(blocks, n) + Size(b)
    decreases |blocks| - n
  {
    if n < |blocks| { SumSizeOfAppended(blocks, b, n + 1); }
  }

  lemma NextBytes(before: seq<byte>, blocks: seq<Block>, n: nat)
    requires AllStorable(blocks) && n < |blocks|
    ensures SumSize(blocks, n) == Size(blocks[n]) + SumSize(blocks, n + 1)
    ensures BytesFrom(blocks, n) == [Tag(blocks[n])] + Body(blocks[n]) + BytesFrom(blocks, n + 1)
    ensures before + ([Tag(blocks[n])] + Body(blocks[n])) + BytesFrom(blocks, n + 1) == before + BytesFrom(blocks, n)
  {}

  lemma NoMoreBytes(blocks: seq<Block>)
    requires AllStorable(blocks)
    ensures BytesFrom(blocks, |blocks|) == [] && SumSize(blocks, |blocks|) == 0
  {}

  method WriteBlock(vFile: VirtualFile, b: Block) returns (ok: bool)
    requires vFile.Valid() && Storable(b) && vFile.cursor + Size(b) <= vFile.buffer.Length
    modifies vFile, vFile.buffer
    ensures ok && vFile.Valid() && vFile.cursor == old(vFile.cursor) + Size(b)
    ensures vFile.buffer[..vFile.cursor] == old(vFile.buffer[..vFile.cursor]) + ([Tag(b)] + Body(b))
  {
    hide Encode, EncodeAddresses;
    ghost var before := vFile.buffer[..vFile.cursor];
    SizeIsRight(b);
    ok := vFile.Write([Tag(b)]);
    match b
    case YearBlock(year) =>
      ok := vFile.Write(Encode(year, 2));
    case MonthBlock(month) =>
      ok := vFile.Write(Encode(month, 1));
    case DataBlock(_, _, _, _, _) =>
      ok := WriteData(vFile, b);
    assert before + [Tag(b)] + Body(b) == before + ([Tag(b)] + Body(b));
  }

  method WriteData(vFile: VirtualFile, b: Block) returns (ok: bool)
    requires vFile.Valid() && Storable(b) && b.DataBlock? && vFile.cursor + Size(b) - 1 <= vFile.buffer.Length
    modifies vFile, vFile.buffer
    ensures ok && vFile.Valid() && vFile.cursor == old(vFile.cursor) + Size(b) - 1
    ensures vFile.buffer[..vFile.cursor] == old(vFile.buffer[..vFile.cursor]) + Body(b)
  {
    hide Encode, EncodeAddresses;
    var nr, cursor, coin := Encode(b.transactionNr, 8), Encode(b.fileCursor, 4), Encode(b.coinCommunityIdIndex, 4);
    var addresses := EncodeAddresses(b.addressIndices, |b.addressIndices|);
    ghost var before := vFile.buffer[..vFile.cursor];
    ok := vFile.Write(nr);
    ok := vFile.Write(cursor);
    ok := vFile.Write([b.transactionType]);
    ok := vFile.Write(coin);
    ok := vFile.Write([|b.addressIndices|]);
    ok := vFile.Write(addresses);
    Regroup(before, nr, cursor, [b.transactionType], coin, [|b.addressIndices|], addresses);
  }

  lemma Regroup(s: seq<byte>, a: seq<byte>, b: seq<byte>, c: seq<byte>, d: seq<byte>, e: seq<byte>, f: seq<byte>)
    ensures s + a + b + c + d + e + f == s + (a + b + c + d + e + f)
  {}

  method WriteTrailer(vFile: VirtualFile, hash: Hash)
    requires vFile.Valid() && vFile.cursor + HASH_SIZE + 1 <= vFile.buffer.Length
    modifies vFile, vFile.buffer
    ensures vFile.Valid() && vFile.buffer[..vFile.cursor] == old(vFile.buffer[..vFile.cursor]) + [HASH_BLOCK] + hash
  {
    var ok := vFile.Write([HASH_BLOCK]);
    assert ok;
    ok := vFile.Write(hash);
    assert ok;
  }

  /** Reads a tag and what belongs to it. */
  method ReadItem(lib: Library, vFile: VirtualFile) returns (item: Item)
    requires vFile.Valid() && vFile.cursor < vFile.buffer.Length
    modifies vFile
    ensures vFile.Valid() && vFile.buffer[..] == old(vFile.buffer[..])
    ensures item == ParseItem(lib, old(vFile.buffer[vFile.cursor..]))
    ensures item.Record? ==> vFile.cursor == old(vFile.cursor) + item.length
  {
    ghost var s := vFile.buffer[vFile.cursor..];
    ghost var at := vFile.cursor;
    var tag := vFile.Read(1);
    var blockType := tag.value[0];
    if blockType == DATA_BLOCK {
      var data := ReadData(lib, vFile);
      assert s[1..] == vFile.buffer[at + 1..];
      item := match data case Ok(b) => Record(b.0, 1 + b.1) case Err(e) => Fails(e);
    } else if blockType == MONTH_BLOCK {
      var month := vFile.Read(1);
      if month.None? { return Fails(BufferOverflow); }
      item := Record(MonthBlock(month.value[0]), 2);
    } else if blockType == YEAR_BLOCK {
      var year := vFile.Read(2);
      if year.None? { return Fails(BufferOverflow); }
      assert year.value == s[1..3];
      item := Record(YearBlock(SignedYear(year.value)), 3);
    } else if blockType == HASH_BLOCK {
      var hash := vFile.Read(HASH_SIZE);
      if hash.None? { return Fails(BufferOverflow); }
      assert hash.value == s[1..1 + HASH_SIZE];
      item := Trailer(hash.value);
    } else {
      item := Unknown;
    }
  }

  method ReadData(lib: Library, vFile: VirtualFile) returns (data: Result<(Block, nat), Error>)
    requires vFile.Valid()
    modifies vFile
    ensures vFile.Valid() && vFile.buffer[..] == old(vFile.buffer[..])
    ensures data == ParseData(lib, old(vFile.buffer[vFile.cursor..]))
    ensures data.Ok? ==> vFile.cursor == old(vFile.cursor) + data.value.1
  {
    hide FromLittleEndian, Addresses, Pow;
    ghost var s := vFile.buffer[vFile.cursor..];
    var nr := vFile.Read(8);
    if nr.None? { return Err(BufferOverflow); }
    var cursor := vFile.Read(4);
    if cursor.None? { return Err(BufferOverflow); }
    var transactionType := vFile.Read(1);
    if transactionType.None? { return Err(BufferOverflow); }
    assert nr.value == s[..8] && cursor.value == s[8..12] && transactionType.value[0] == s[12];
    if !lib.isType(transactionType.value[0]) { return Err(UnknownTransactionType); }
    var coin := vFile.Read(4);
    if coin.None? { return Err(BufferOverflow); }
    var count := vFile.Read(1);
    if count.None? { return Err(BufferOverflow); }
    assert coin.value == s[13..17] && count.value[0] == s[17];
    var n: nat := count.value[0];
    assert vFile.buffer[vFile.cursor..] == s[18..];
    var addresses := ReadAddresses(vFile, n);
    if addresses.None? { return Err(BufferOverflow); }
    data := Ok((DataBlock(Unsigned(nr.value), Signed(cursor.value), transactionType.value[0], Unsigned(coin.value),
                          addresses.value), 18 + 4 * n));
  }

  /** The addresses of a data record, four bytes each. */
  method ReadAddresses(vFile: VirtualFile, n: nat) returns (addresses: Option<seq<int>>)
    requires vFile.Valid()
    modifies vFile
    ensures vFile.Valid() && vFile.buffer[..] == old(vFile.buffer[..])
    ensures addresses.None? <==> old(vFile.cursor) + 4 * n > vFile.buffer.Length
    ensures addresses.Some? ==>
              addresses.value == Addresses(old(vFile.buffer[vFile.cursor..]), n) && vFile.cursor == old(vFile.cursor) + 4 * n
  {
    ghost var at := vFile.cursor;
    var bytes := vFile.Read(4 * n);
    if bytes.None? { return None; }
    assert bytes.value == vFile.buffer[at..][..4 * n];
    AddressesOfPrefix(vFile.buffer[at..], n, n);
    addresses := Some(Addresses(bytes.value, n));
  }

  lemma {:induction false} AddressesOfPrefix(s: seq<byte>, m: nat, n: nat)
    requires n <= m && 4 * m <= |s|
    ensures Addresses(s[..4 * m], n) == Addresses(s, n)
  {
    if n > 0 {
      AddressesOfPrefix(s, m, n - 1);
      assert s[..4 * m][4 * (n - 1)..4 * n] == s[4 * (n - 1)..4 * n];
    }
  }
}
