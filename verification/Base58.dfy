/** The Base58 codec of src/lib/base58.c.

    Encode and Decode keep the source's scratch buffers, loops and early exits; EncodeText and DecodeText
    say what they compute in terms of big-endian numbers. Decode is the decoder with the four rejection
    guards braced. In the file the braces are missing, so the first digit that is not a leading '1'
    always ends in rejection; DecodeAsWritten keeps that behaviour. */
module Base58 {
  import opened ByteCodec
  import opened Numerals

  type limb = x: int | 0 <= x < LIMB

  const LIMB := 0x1_0000_0000

  // ---------------------------------------------------------------- alphabet

  /** b58digits_ordered, run by run: digits without '0', capitals without 'I' and 'O', small letters without 'l'. */
  function CharOf(digit: int): char
    requires 0 <= digit < 58
  {
    if digit < 9 then ('1' as int + digit) as char
    else if digit < 17 then ('A' as int + digit - 9) as char
    else if digit < 22 then ('J' as int + digit - 17) as char
    else if digit < 33 then ('P' as int + digit - 22) as char
    else if digit < 44 then ('a' as int + digit - 33) as char
    else ('m' as int + digit - 44) as char
  }

  /** b58digits_map, run by run; -1 for a character outside the alphabet. Only 7-bit characters are looked up. */
  function DigitOf(c: char): int
    requires c as int < 128
  {
    if '1' <= c <= '9' then c as int - '1' as int
    else if 'A' <= c <= 'H' then c as int - 'A' as int + 9
    else if 'J' <= c <= 'N' then c as int - 'J' as int + 17
    else if 'P' <= c <= 'Z' then c as int - 'P' as int + 22
    else if 'a' <= c <= 'k' then c as int - 'a' as int + 33
    else if 'm' <= c <= 'z' then c as int - 'm' as int + 44
    else -1
  }

  predicate ValidChar(c: char) {
    c as int < 128 && DigitOf(c) != -1
  }

  /** The two tables are inverse to each other. */
  lemma TablesAreInverse(c: char, digit: int)
    ensures 0 <= digit < 58 ==> ValidChar(CharOf(digit)) && DigitOf(CharOf(digit)) == digit
    ensures ValidChar(c) ==> 0 <= DigitOf(c) < 58 && CharOf(DigitOf(c)) == c
  {
    if 'm' <= c <= 'z' { assert CharOf(DigitOf(c)) == c; }
  }

  /** The alphabet: all digits and letters but '0', 'I', 'O' and 'l', and a higher digit has a higher character, so '1' to
      '9' come first, then the capitals, then the small letters. */
  lemma AlphabetIsBase58(c: char, d: int, e: int)
    ensures c as int < 128 ==>
              (DigitOf(c) != -1 <==> ('0' <= c <= '9' || 'A' <= c <= 'Z' || 'a' <= c <= 'z') && c !in ['0', 'I', 'O', 'l'])
    ensures 0 <= d < e < 58 ==> CharOf(d) < CharOf(e)
    ensures CharOf(0) == '1' && CharOf(8) == '9' && CharOf(9) == 'A' && CharOf(32) == 'Z' && CharOf(33) == 'a' && CharOf(57) == 'z'
  {}

  // ---------------------------------------------------------------- what the codec computes

  function Chars(digits: seq<int>): (s: string)
    requires Digits(digits, 58)
    ensures |s| == |digits|
  {
    seq(|digits|, i requires 0 <= i < |digits| => CharOf(digits[i]))
  }

  function DigitsOf(s: string): (digits: seq<int>)
    requires ValidText(s)
    ensures |digits| == |s|
  {
    assert forall i :: 0 <= i < |s| ==> ValidChar(s[i]);
    seq(|s|, i requires 0 <= i < |s| => DigitOf(s[i]))
  }

  predicate ValidText(s: string) {
    forall i :: 0 <= i < |s| ==> ValidChar(s[i])
  }

  function Ones(n: nat): (s: string)
    ensures |s| == n
  {
    seq(n, i => '1')
  }

  function LeadingOnes(s: string): (z: nat)
    ensures z <= |s|
    ensures forall i :: 0 <= i < z ==> s[i] == '1'
    ensures z < |s| ==> s[z] != '1'
  {
    if s == [] || s[0] != '1' then 0 else 1 + LeadingOnes(s[1..])
  }

  function Number(bin: seq<byte>): (n: nat) {
    ValueBound(bin, 256);
    Value(bin, 256)
  }

  /** One '1' per leading zero byte, then the canonical base-58 digits of the number. */
  function EncodeText(bin: seq<byte>): string {
    Ones(LeadingZeros(bin)) + Chars(Canonical(Number(bin), 58))
  }

  function Bytes(n: nat, width: nat): (s: seq<byte>)
    ensures |s| == width
  {
    var s := Fixed(n, 256, width);
    seq(width, i requires 0 <= i < width => s[i])
  }

  lemma BytesAreFixed(n: nat, width: nat)
    ensures Bytes(n, width) == Fixed(n, 256, width)
  {}

  /** The width bytes written and the reported canonical size; None when the text is rejected. */
  function DecodeText(s: string, width: nat): Option<(seq<byte>, nat)> {
    if !ValidText(s) then None else
      DigitsBound(s);
      var n := Value(DigitsOf(s), 58);
      if n >= Pow(256, width) then None
      else Some((Bytes(n, width), width - LeadingZeros(Bytes(n, width)) + LeadingOnes(s)))
  }

  lemma DigitsBound(s: string)
    requires ValidText(s)
    ensures Digits(DigitsOf(s), 58) && Value(DigitsOf(s), 58) >= 0
  {
    forall i | 0 <= i < |s| ensures 0 <= DigitOf(s[i]) < 58 { TablesAreInverse(s[i], 0); }
    ValueBound(DigitsOf(s), 58);
  }

  // ---------------------------------------------------------------- laws of the codec

  lemma DigitsOfChars(digits: seq<int>)
    requires Digits(digits, 58)
    ensures ValidText(Chars(digits)) && DigitsOf(Chars(digits)) == digits
  {
    forall i | 0 <= i < |digits| ensures ValidChar(Chars(digits)[i]) && DigitOf(Chars(digits)[i]) == digits[i] {
      TablesAreInverse('1', digits[i]);
    }
  }

  function Zeros(n: nat): (s: seq<int>)
    ensures |s| == n
  {
    seq(n, i => 0)
  }

  lemma TextDigits(z: nat, c: seq<int>)
    requires Digits(c, 58)
    ensures ValidText(Ones(z) + Chars(c)) && DigitsOf(Ones(z) + Chars(c)) == Zeros(z) + c
  {
    DigitsOfChars(c);
    var t := Ones(z) + Chars(c);
    forall i | 0 <= i < |t| ensures ValidChar(t[i]) && DigitOf(t[i]) == (Zeros(z) + c)[i] {
      if i >= z {
        assert t[i] == Chars(c)[i - z];
        assert DigitOf(t[i]) == DigitsOf(Chars(c))[i - z];
      }
    }
  }

  /** The number of an input and its count of leading zeros can be read off its text. */
  lemma EncodeTextShape(bin: seq<byte>)
    ensures ValidText(EncodeText(bin))
    ensures Value(DigitsOf(EncodeText(bin)), 58) == Number(bin)
    ensures LeadingOnes(EncodeText(bin)) == LeadingZeros(bin)
  {
    var z, n := LeadingZeros(bin), Number(bin);
    var c := Canonical(n, 58);
    TextDigits(z, c);
    CanonicalValue(n, 58);
    PaddedText(z, c);
  }

  lemma PaddedText(z: nat, c: seq<int>)
    requires Digits(c, 58) && (c != [] ==> c[0] != 0)
    ensures Value(Zeros(z) + c, 58) == Value(c, 58)
    ensures LeadingOnes(Ones(z) + Chars(c)) == z
  {
    var d, t := Zeros(z) + c, Ones(z) + Chars(c);
    ValueZeros(d, z, 58);
    assert d[z..] == c;
    if c != [] {
      assert t[z] == Chars(c)[0] == CharOf(c[0]);
      TablesAreInverse('1', c[0]);
    }
    OnesCount(t, z);
  }

  lemma {:induction false} OnesCount(s: string, z: nat)
    requires z <= |s| && forall i :: 0 <= i < z ==> s[i] == '1'
    requires z < |s| ==> s[z] != '1'
    ensures LeadingOnes(s) == z
  {
    if z > 0 { OnesCount(s[1..], z - 1); }
  }

  /** Decoding an encoded byte string into a buffer of its own length gives it back, with its own size. */
  lemma DecodeEncode(bin: seq<byte>)
    ensures DecodeText(EncodeText(bin), |bin|) == Some((bin, |bin|))
  {
    EncodeTextShape(bin);
    ValueBound(bin, 256);
    FixedUnique(bin, 256);
    BytesAreFixed(Number(bin), |bin|);
  }

  lemma CharsOfDigits(s: string)
    requires ValidText(s)
    ensures Digits(DigitsOf(s), 58) && Chars(DigitsOf(s)) == s
  {
    hide CharOf, DigitOf;
    DigitsBound(s);
    forall i | 0 <= i < |s| ensures Chars(DigitsOf(s))[i] == s[i] { TablesAreInverse(s[i], 0); }
  }

  /** Decoding an encoded byte string into any width succeeds exactly if its number fits. The size reported is that of the
      byte string, and what is written is its number. */
  lemma DecodeEncodeAnyWidth(bin: seq<byte>, width: nat)
    ensures DecodeText(EncodeText(bin), width).Some? <==> Number(bin) < Pow(256, width)
    ensures DecodeText(EncodeText(bin), width).Some? ==>
              var (written, size) := DecodeText(EncodeText(bin), width).value;
              |written| == width && Number(written) == Number(bin) && size == |bin|
  {
    hide Value, Pow, LeadingOnes, LeadingZeros, EncodeText, Canonical;
    EncodeTextShape(bin);
    if Number(bin) < Pow(256, width) {
      var written := Bytes(Number(bin), width);
      BytesAreFixed(Number(bin), width);
      FixedValue(Number(bin), 256, width);
      CanonicalOfBytes(bin);
      CanonicalOfBytes(written);
    }
  }

  /** Behind its leading '1's a text is made of the characters of its digits, and these have no leading zero. */
  lemma TextParts(s: string)
    requires ValidText(s)
    ensures var z := LeadingOnes(s); var c := DigitsOf(s[z..]);
            Digits(c, 58) && s == Ones(z) + Chars(c) && DigitsOf(s) == Zeros(z) + c && (c != [] ==> c[0] != 0)
  {
    hide CharOf, DigitOf, Chars, DigitsOf, ValidText, ValidChar, LeadingOnes, Ones, Zeros;
    var z := LeadingOnes(s);
    SplitOnes(s);
    CharsOfDigits(s[z..]);
    TextDigits(z, DigitsOf(s[z..]));
  }

  lemma SplitOnes(s: string)
    requires ValidText(s)
    ensures var z := LeadingOnes(s);
            s == Ones(z) + s[z..] && ValidText(s[z..]) && (z < |s| ==> DigitsOf(s[z..])[0] != 0)
  {
    hide CharOf, DigitOf, ValidChar, LeadingOnes;
    var z := LeadingOnes(s);
    assert s == s[..z] + s[z..] && s[..z] == Ones(z);
    if z < |s| {
      assert ValidChar(s[z]) && s[z] != '1';
      FirstIsNotOne(s[z]);
    }
  }

  lemma FirstIsNotOne(c: char)
    requires ValidChar(c) && c != '1'
    ensures DigitOf(c) != 0
  {}

  /** The text of a byte string is the only one of the alphabet with as many leading '1's as it has leading zeros, and with
      its number. */
  lemma EncodeTextExactly(bin: seq<byte>, s: string)
    ensures s == EncodeText(bin) <==>
            ValidText(s) && LeadingOnes(s) == LeadingZeros(bin) && Value(DigitsOf(s), 58) == Number(bin)
  {
    EncodeTextShape(bin);
    if ValidText(s) && LeadingOnes(s) == LeadingZeros(bin) && Value(DigitsOf(s), 58) == Number(bin) {
      TextParts(s);
      var z, c := LeadingOnes(s), DigitsOf(s[LeadingOnes(s)..]);
      ValueZeros(Zeros(z) + c, z, 58);
      assert (Zeros(z) + c)[z..] == c;
      CanonicalUnique(c, 58);
    }
  }

  /** Encoding what a text was decoded to gives the text back if and only if the reported size is the width. */
  lemma EncodeDecodeExactly(s: string, width: nat)
    requires DecodeText(s, width).Some?
    ensures var (bin, size) := DecodeText(s, width).value; EncodeText(bin) == s <==> size == width
  {
    var (bin, size) := DecodeText(s, width).value;
    DigitsBound(s);
    BytesAreFixed(Value(DigitsOf(s), 58), width);
    FixedValue(Value(DigitsOf(s), 58), 256, width);
    EncodeTextExactly(bin, s);
    if EncodeText(bin) == s { DecodeEncode(bin); }
  }

  lemma EncodeInjective(a: seq<byte>, b: seq<byte>)
    requires EncodeText(a) == EncodeText(b)
    ensures a == b
  {
    EncodeTextShape(a);
    EncodeTextShape(b);
    CanonicalOfBytes(a);
    CanonicalOfBytes(b);
  }

  /** A byte string is its leading zeros followed by the canonical bytes of its number. */
  lemma CanonicalOfBytes(bin: seq<byte>)
    ensures bin == Zeros(LeadingZeros(bin)) + Canonical(Number(bin), 256)
  {
    var z := LeadingZeros(bin);
    ValueZeros(bin, z, 256);
    CanonicalUnique(bin[z..], 256);
    assert bin == bin[..z] + bin[z..];
  }

  // ---------------------------------------------------------------- size of the scratch buffer

  /** 41 base-58 digits hold 56 bits: the seventh power of the claim is 58^7 >= 2^41 raised to s. */
  lemma DigitsSuffice(n: nat, s: nat)
    requires 41 * s >= 56 * n
    ensures Pow(256, n) <= Pow(58, s)
  {
    SeventhPowers();
    PowMul(58, s, 7);
    PowMul(58, 7, s);
    assert s * 7 == 7 * s;
    PowMonotoneBase(Pow(2, 41), Pow(58, 7), s);
    PowMul(2, 41, s);
    PowMonotoneExp(2, 56 * n, 41 * s);
    PowMul(2, 8, n);
    PowMul(2, 8 * n, 7);
    assert 8 * n * 7 == 56 * n;
    Root(Pow(256, n), Pow(58, s), 7);
  }

  lemma SeventhPowers()
    ensures Pow(2, 41) <= Pow(58, 7) && Pow(2, 8) == 256
  {
    assert Pow(58, 2) == 3364;
    assert Pow(58, 4) == 11316496;
    assert Pow(58, 6) == 58 * (58 * Pow(58, 4));
    assert Pow(58, 7) == 58 * Pow(58, 6);
    assert Pow(2, 8) == 256;
    PowMul(2, 8, 5);
    assert Pow(256, 3) == 16777216;
    assert Pow(256, 5) == 256 * (256 * Pow(256, 3));
    assert Pow(2, 41) == 2 * Pow(2, 40);
  }

  /** n*138/100+1 digits hold n bytes, and without the first digit they still hold n-1 bytes. */
  lemma ScratchSizeSuffices(n: nat)
    ensures Pow(256, n) <= Pow(58, n * 138 / 100 + 1)
    ensures n > 0 ==> Pow(256, n - 1) <= Pow(58, n * 138 / 100)
  {
    DigitsSuffice(n, n * 138 / 100 + 1);
    if n > 0 { DigitsSuffice(n - 1, n * 138 / 100); }
  }

  // ---------------------------------------------------------------- encoder

  /** The digits from done on, with the carry into the digit before them, hold 256 times the old ones plus b. */
  ghost predicate Balanced(cur: seq<int>, done: nat, carry: int, was: seq<int>, b: int)
    requires |cur| == |was| && done <= |cur|
  {
    0 <= carry <= 255 &&
    carry * Pow(58, |cur| - done) + Value(cur[done..], 58) == b + 256 * Value(was[done..], 58)
  }

  /** One step of the long conversion: buf := 256 * buf + b, touching only the digits that can change.
      Every digit up to high is zero on entry; every digit below j is zero on return, and digit j too
      unless the number now fills the whole buffer. */
  method MulAddByte(buf: array<byte>, high: nat, b: byte) returns (j: nat)
    requires high < buf.Length && Digits(buf[..], 58)
    requires forall i :: 0 <= i <= high ==> buf[i] == 0
    requires 256 * Value(buf[..], 58) + b < Pow(58, buf.Length)
    modifies buf
    ensures Digits(buf[..], 58)
    ensures Value(buf[..], 58) == 256 * old(Value(buf[..], 58)) + b
    ensures j < buf.Length && forall i :: 0 <= i < j ==> buf[i] == 0
    ensures Value(buf[..], 58) < Pow(58, buf.Length - 1) ==> buf[j] == 0
  {
    ghost var was: seq<int> := buf[..];
    var size := buf.Length;
    var carry: int := b;
    j := size - 1;
    ghost var done := size;
    while j > high || carry != 0
      invariant j < size && done == j + 1
      invariant Digits(buf[..], 58) && buf[..done] == was[..done]
      invariant Balanced(buf[..], done, carry, was, b)
      decreases j
    {
      carry := MulAddDigit(buf, j, carry, was, b);
      done := j;
      if j == 0 { break; }
      j := j - 1;
    }
    assert Balanced(buf[..], done, carry, was, b);
    Settled(buf[..], done, carry, was, b);
  }

  method MulAddDigit(buf: array<byte>, j: nat, carry: int, ghost was: seq<int>, ghost b: int) returns (next: int)
    requires j < buf.Length == |was| && Digits(buf[..], 58) && buf[j] == was[j]
    requires Balanced(buf[..], j + 1, carry, was, b)
    modifies buf
    ensures Digits(buf[..], 58) && buf[..j] == old(buf[..j])
    ensures Balanced(buf[..], j, next, was, b)
  {
    ghost var tail: seq<int> := buf[j + 1..];
    assert buf[..][j + 1..] == tail;
    Carry(carry, was, tail, j, b);
    var t := carry + 256 * (buf[j] as int);
    buf[j] := t % 58;
    next := t / 58;
    assert buf[..][j..] == [t % 58] + tail;
  }

  /** What Balanced means once the loop is over. */
  lemma Settled(cur: seq<int>, done: nat, carry: int, was: seq<int>, b: int)
    requires |cur| == |was| > 0 && done <= |cur| && Digits(cur, 58) && cur[..done] == was[..done]
    requires Balanced(cur, done, carry, was, b)
    requires 256 * Value(was, 58) + b < Pow(58, |cur|)
    requires done > 0 ==> carry == 0 && forall i :: 0 <= i < done ==> was[i] == 0
    ensures Value(cur, 58) == 256 * Value(was, 58) + b
    ensures Value(cur, 58) < Pow(58, |cur| - 1) ==> cur[0] == 0
  {
    hide Value, Pow;
    TopDigit(cur);
    if done == 0 {
      assert cur[0..] == cur && was[0..] == was;
      ValueBound(cur, 58);
      NoCarryLeft(carry, Pow(58, |cur|), Value(cur, 58));
    } else {
      forall i | 0 <= i < done ensures cur[i] == 0 { assert cur[..done][i] == was[..done][i]; }
      ValueZeros(cur, done, 58);
      ValueZeros(was, done, 58);
    }
  }

  lemma Carry(carry: int, was: seq<int>, tail: seq<int>, j: nat, b: int)
    requires j < |was| && |tail| == |was| - j - 1 && 0 <= was[j] < 58 && 0 <= carry <= 255
    requires carry * Pow(58, |tail|) + Value(tail, 58) == b + 256 * Value(was[j + 1..], 58)
    ensures var t := carry + 256 * was[j];
            0 <= t / 58 <= 255 && 0 <= t % 58 < 58 &&
            (t / 58) * Pow(58, |tail| + 1) + Value([t % 58] + tail, 58) == b + 256 * Value(was[j..], 58)
  {
    var t, p := carry + 256 * was[j], Pow(58, |tail|);
    assert was[j..] == [was[j]] + was[j + 1..];
    ValueHead(was[j], was[j + 1..], 58);
    ValueHead(t % 58, tail, 58);
    SplitDigit(t, p);
    assert t * p == carry * p + 256 * (was[j] * p) by { Distribute(carry, 256, was[j], p); }
  }

  lemma SplitDigit(t: int, p: int)
    ensures (t / 58) * (58 * p) + (t % 58) * p == t * p
  {
    var q, r := t / 58, t % 58;
    assert t == 58 * q + r;
    assert (58 * q + r) * p == q * (58 * p) + r * p;
  }

  lemma Distribute(c: int, k: int, d: int, p: int)
    ensures (c + k * d) * p == c * p + k * (d * p)
  {}

  lemma NoCarryLeft(carry: int, p: int, v: int)
    requires 0 <= carry && 0 <= v && 0 < p && carry * p + v < p
    ensures carry == 0
  {
    if carry >= 1 { MulMonotone(carry, 1, p); }
  }

  lemma TopDigit(s: seq<int>)
    requires Digits(s, 58) && s != []
    ensures Value(s, 58) < Pow(58, |s| - 1) ==> s[0] == 0
  {
    assert s == [s[0]] + s[1..];
    ValueHead(s[0], s[1..], 58);
    ValueBound(s[1..], 58);
    PowPositive(58, |s| - 1);
    if s[0] >= 1 { MulMonotone(s[0], 1, Pow(58, |s| - 1)); }
  }

  method CountLeadingZeros(bin: seq<byte>) returns (zcount: nat)
    ensures zcount == LeadingZeros(bin)
  {
    zcount := 0;
    while zcount < |bin| && bin[zcount] == 0
      invariant zcount <= |bin| && forall i :: 0 <= i < zcount ==> bin[i] == 0
    {
      zcount := zcount + 1;
    }
    ZerosCount(bin, zcount);
  }

  /** Fills the scratch buffer with the digits of the number, right aligned. */
  method Convert(bin: seq<byte>, zcount: nat) returns (buf: array<byte>)
    requires zcount == LeadingZeros(bin)
    ensures fresh(buf) && buf.Length == (|bin| - zcount) * 138 / 100 + 1
    ensures Digits(buf[..], 58) && Value(buf[..], 58) == Number(bin)
  {
    hide Value, Pow, LeadingZeros;
    var binsz := |bin|;
    var size := (binsz - zcount) * 138 / 100 + 1;
    buf := new byte[size](i => 0);
    ValueZeros(buf[..], size, 58);
    NoDigits(58);
    NoDigits(256);
    assert bin[zcount..zcount] == [] && buf[..][size..] == [];
    var i, high: nat := zcount, size - 1;
    while i < binsz
      invariant zcount <= i <= binsz && high < size
      invariant Digits(buf[..], 58) && Value(buf[..], 58) == Value(bin[zcount..i], 256)
      invariant forall k :: 0 <= k < high ==> buf[k] == 0
      invariant i < binsz ==> buf[high] == 0
    {
      StepFits(bin, zcount, i);
      high := MulAddByte(buf, high, bin[i]);
      i := i + 1;
    }
    ValueZeros(bin, zcount, 256);
    assert bin[zcount..binsz] == bin[zcount..];
  }

  method SkipZeros(buf: array<byte>) returns (j: nat)
    requires Digits(buf[..], 58)
    ensures j <= buf.Length && 0 <= Value(buf[..], 58)
    ensures buf[j..] == Canonical(Value(buf[..], 58), 58)
  {
    j := 0;
    while j < buf.Length && buf[j] == 0
      invariant j <= buf.Length && forall k :: 0 <= k < j ==> buf[k] == 0
    {
      j := j + 1;
    }
    ValueZeros(buf[..], j, 58);
    assert buf[..][j..] == buf[j..];
    CanonicalUnique(buf[j..], 58);
  }

  /** b58enc. b58sz is the capacity on entry; outSz is what the source stores back into it. */
  method Encode(b58: array<char>, b58sz: nat, bin: seq<byte>) returns (ok: bool, outSz: nat)
    requires b58sz <= b58.Length
    modifies b58
    ensures outSz == |EncodeText(bin)| + 1
    ensures ok <==> outSz <= b58sz
    ensures ok ==> b58[..outSz] == EncodeText(bin) + ['\0']
    ensures ok ==> forall k :: outSz <= k < b58.Length ==> b58[k] == old(b58[k])
    ensures !ok ==> b58[..] == old(b58[..])
  {
    var zcount := CountLeadingZeros(bin);
    var buf := Convert(bin, zcount);
    var size := buf.Length;
    var j := SkipZeros(buf);
    if b58sz <= zcount + size - j {
      return false, zcount + size - j + 1;
    }
    outSz := Emit(b58, zcount, buf, j);
    ok := true;
  }

  method Emit(b58: array<char>, zcount: nat, buf: array<byte>, start: nat) returns (outSz: nat)
    requires start <= buf.Length && Digits(buf[start..], 58)
    requires zcount + buf.Length - start < b58.Length
    modifies b58
    ensures outSz == zcount + buf.Length - start + 1
    ensures b58[..outSz] == Ones(zcount) + Chars(buf[start..]) + ['\0']
    ensures forall k :: outSz <= k < b58.Length ==> b58[k] == old(b58[k])
  {
    ghost var digits: seq<int> := buf[start..];
    ghost var text := Ones(zcount) + Chars(digits);
    var i := 0;
    while i < zcount
      invariant i <= zcount && buf[start..] == digits
      invariant forall k :: 0 <= k < i ==> b58[k] == text[k]
      invariant forall k :: i <= k < b58.Length ==> b58[k] == old(b58[k])
    {
      b58[i] := '1';
      i := i + 1;
    }
    var j := start;
    while j < buf.Length
      invariant start <= j <= buf.Length && i == zcount + j - start && buf[start..] == digits
      invariant forall k :: 0 <= k < i ==> b58[k] == text[k]
      invariant forall k :: i <= k < b58.Length ==> b58[k] == old(b58[k])
    {
      assert buf[j] == digits[j - start];
      b58[i] := CharOf(buf[j]);
      i, j := i + 1, j + 1;
    }
    b58[i] := '\0';
    outSz := i + 1;
    assert b58[..outSz] == text + ['\0'];
  }

  lemma {:induction false} ZerosCount(s: seq<int>, z: nat)
    requires z <= |s| && forall i :: 0 <= i < z ==> s[i] == 0
    requires z < |s| ==> s[z] != 0
    ensures LeadingZeros(s) == z
  {
    if z > 0 { ZerosCount(s[1..], z - 1); }
  }

  /** The next byte fits, and only the last one can reach the top digit of the scratch buffer. */
  lemma StepFits(bin: seq<byte>, z: nat, i: nat)
    requires z <= i < |bin|
    ensures var v, size := Value(bin[z..i], 256), (|bin| - z) * 138 / 100 + 1;
            Value(bin[z..i + 1], 256) == 256 * v + bin[i] && 256 * v + bin[i] < Pow(58, size) &&
            (i + 1 < |bin| ==> 256 * v + bin[i] < Pow(58, size - 1))
  {
    var n := |bin| - z;
    var s := bin[z..i + 1];
    assert s[..|s| - 1] == bin[z..i];
    ValueBound(s, 256);
    ScratchSizeSuffices(n);
    PowMonotoneExp(256, |s|, n);
    if i + 1 < |bin| { PowMonotoneExp(256, |s|, n - 1); }
  }

  // ---------------------------------------------------------------- decoder

  predicate CString(b58: string, b58sz: nat) {
    b58sz <= |b58| && (b58sz == 0 ==> '\0' in b58)
  }

  function StrLen(s: string): (n: nat)
    requires '\0' in s
    ensures n < |s| && s[n] == '\0' && forall i :: 0 <= i < n ==> s[i] != '\0'
  {
    if s[0] == '\0' then 0 else 1 + StrLen(s[1..])
  }

  /** The characters to decode: a size of zero asks for the length of the C string. */
  function Text(b58: string, b58sz: nat): string
    requires CString(b58, b58sz)
  {
    b58[..if b58sz == 0 then StrLen(b58) else b58sz]
  }

  lemma Rejected(text: string, i: nat, width: nat)
    requires i <= |text|
    requires ValidText(text[..i]) ==> Value(DigitsOf(text[..i]), 58) >= Pow(256, width)
    ensures DecodeText(text, width) == None
  {
    if ValidText(text) {
      assert ValidText(text[..i]) by { assert forall k :: 0 <= k < i ==> text[..i][k] == text[k]; }
      assert DigitsOf(text[..i]) == DigitsOf(text)[..i];
      DigitsBound(text);
      PrefixValue(DigitsOf(text), i);
    }
  }

  lemma {:induction false} PrefixValue(s: seq<int>, i: nat)
    requires i <= |s| && Digits(s, 58)
    ensures 0 <= Value(s[..i], 58) <= Value(s, 58)
  {
    ValueBound(s[..i], 58);
    if i < |s| {
      var s' := s[..|s| - 1];
      PrefixValue(s', i);
      assert s'[..i] == s[..i];
    } else {
      assert s[..i] == s;
    }
  }

  /** A limb array of (width + 3) / 4 limbs spans at least width bytes; it holds a number of width bytes
      exactly when its first limb holds no more than the bytes left over by whole limbs. */
  lemma TopLimb(outi: seq<limb>, width: nat)
    requires |outi| == (width + 3) / 4
    ensures Pow(256, width) <= Pow(LIMB, |outi|)
    ensures width % 4 == 0 ==> Value(outi, LIMB) < Pow(256, width)
    ensures width % 4 != 0 ==> (Value(outi, LIMB) < Pow(256, width) <==> outi[0] < Pow(256, width % 4))
  {
    SpanOfLimbs(|outi|, width);
    ValueBound(outi, LIMB);
    if width % 4 != 0 {
      var low := outi[1..];
      assert outi == [outi[0]] + low;
      ValueHead(outi[0], low, LIMB);
      ValueBound(low, LIMB);
      TopPart(outi[0], Value(low, LIMB), Pow(LIMB, |outi| - 1), Pow(256, width % 4));
    }
  }

  lemma SpanOfLimbs(n: nat, width: nat)
    requires n == (width + 3) / 4
    ensures Pow(256, width) <= Pow(LIMB, n)
    ensures width % 4 == 0 ==> Pow(256, width) == Pow(LIMB, n)
    ensures width % 4 != 0 ==> Pow(256, width) == Pow(256, width % 4) * Pow(LIMB, n - 1)
  {
    LimbIsFourBytes();
    PowMul(256, 4, n);
    PowMonotoneExp(256, width, 4 * n);
    if width % 4 != 0 {
      PowMul(256, 4, n - 1);
      PowAdd(256, width % 4, 4 * (n - 1));
    }
  }

  lemma TopPart(x: int, low: int, p: int, q: int)
    requires 0 <= low < p
    ensures x * p + low < q * p <==> x < q
  {
    if x < q { MulMonotone(q, x + 1, p); } else { MulMonotone(x, q, p); }
  }

  lemma LimbIsFourBytes()
    ensures Pow(256, 4) == LIMB
  {
    assert Pow(256, 2) == 65536;
    assert Pow(256, 4) == 256 * (256 * Pow(256, 2));
  }

  ghost predicate LimbsBalanced(cur: seq<limb>, done: nat, c: int, was: seq<limb>, c0: int)
    requires |cur| == |was| && done <= |cur|
  {
    0 <= c < 58 && c * Pow(LIMB, |cur| - done) + Value(cur[done..], LIMB) == c0 + 58 * Value(was[done..], LIMB)
  }

  lemma LimbCarry(was: seq<limb>, tail: seq<limb>, j: nat, c: int, c0: int)
    requires j < |was| && |tail| == |was| - j - 1 && 0 <= c < 58
    requires c * Pow(LIMB, |tail|) + Value(tail, LIMB) == c0 + 58 * Value(was[j + 1..], LIMB)
    ensures var t := was[j] * 58 + c;
            0 <= t / LIMB < 58 && 0 <= t % LIMB < LIMB &&
            (t / LIMB) * Pow(LIMB, |tail| + 1) + Value([t % LIMB] + tail, LIMB) == c0 + 58 * Value(was[j..], LIMB)
  {
    var t, p := was[j] * 58 + c, Pow(LIMB, |tail|);
    assert was[j..] == [was[j]] + was[j + 1..];
    ValueHead(was[j], was[j + 1..], LIMB);
    ValueHead(t % LIMB, tail, LIMB);
    SplitLimb(t, p);
    assert t * p == c * p + 58 * (was[j] * p) by { Distribute(c, 58, was[j], p); }
  }

  lemma SplitLimb(t: int, p: int)
    ensures (t / LIMB) * (LIMB * p) + (t % LIMB) * p == t * p
  {
    var q, r := t / LIMB, t % LIMB;
    assert t == LIMB * q + r;
    assert (LIMB * q + r) * p == q * (LIMB * p) + r * p;
  }

  /** outi := 58 * outi + c0; what does not fit comes back as the carry c. */
  method MulAddLimbs(outi: array<limb>, c0: int) returns (c: int)
    requires 0 <= c0 < 58
    modifies outi
    ensures 0 <= c < 58
    ensures c * Pow(LIMB, outi.Length) + Value(outi[..], LIMB) == c0 + 58 * old(Value(outi[..], LIMB))
  {
    ghost var was := outi[..];
    c := c0;
    var j := outi.Length;
    while j > 0
      invariant 0 <= j <= outi.Length && outi[..j] == was[..j]
      invariant LimbsBalanced(outi[..], j, c, was, c0)
    {
      j := j - 1;
      assert outi[j] == was[j];
      c := MulAddLimb(outi, j, c, was, c0);
    }
    assert outi[..][0..] == outi[..] && was[0..] == was;
  }

  method MulAddLimb(outi: array<limb>, j: nat, c: int, ghost was: seq<limb>, ghost c0: int) returns (next: int)
    requires j < outi.Length == |was| && outi[j] == was[j]
    requires LimbsBalanced(outi[..], j + 1, c, was, c0)
    modifies outi
    ensures outi[..j] == old(outi[..j])
    ensures LimbsBalanced(outi[..], j, next, was, c0)
  {
    ghost var tail := outi[j + 1..];
    assert outi[..][j + 1..] == tail;
    LimbCarry(was, tail, j, c, c0);
    var t := (outi[j] as int) * 58 + c;
    next := t / LIMB;
    outi[j] := t % LIMB;
    assert outi[..][j..] == [t % LIMB] + tail;
  }

  /** The reading loop of b58tobin, its four guards braced. */
  method ReadDigits(text: string, binsz: nat) returns (ok: bool, outi: array<limb>, zerocount: nat)
    ensures fresh(outi) && outi.Length == (binsz + 3) / 4
    ensures ok <==> DecodeText(text, binsz).Some?
    ensures ok ==> zerocount == LeadingOnes(text)
    ensures ok ==> Value(outi[..], LIMB) == Value(DigitsOf(text), 58)
    ensures ok ==> Value(outi[..], LIMB) < Pow(256, binsz)
  {
    hide Value, Pow, LeadingOnes, CharOf, DigitOf;
    var outisz := (binsz + 3) / 4;
    outi := new limb[outisz](i => 0);
    var bytesleft := binsz % 4;
    zerocount := 0;
    while zerocount < |text| && text[zerocount] == '1'
      invariant zerocount <= |text| && forall k :: 0 <= k < zerocount ==> text[k] == '1'
    {
      zerocount := zerocount + 1;
    }
    var i := zerocount;
    OnesCount(text, zerocount);
    StartOfDigits(text, zerocount, outi[..], binsz);
    while i < |text|
      invariant zerocount <= i <= |text| && (outisz == 0 ==> i == zerocount)
      invariant ValidText(text[..i])
      invariant Value(outi[..], LIMB) == Value(DigitsOf(text[..i]), 58)
      invariant Value(outi[..], LIMB) < Pow(256, binsz)
    {
      if text[i] as int >= 128 || DigitOf(text[i]) == -1 {
        assert !ValidChar(text[i]) && !ValidText(text);
        return false, outi, zerocount;
      }
      NextDigit(text, i);
      var c := DigitOf(text[i]);
      c := MulAddLimbs(outi, c);
      i := i + 1;
      GuardsAreRight(text, i, binsz, outi[..], c);
      if c != 0 {
        return false, outi, zerocount;
      }
      if Overfull(outi[0], bytesleft) {
        return false, outi, zerocount;
      }
    }
    assert text[..i] == text;
    ok := true;
  }

  /** outi[0] & zeromask, where the mask has the low bytesleft bytes cleared, or is 0 if there are none. */
  predicate Overfull(x: limb, bytesleft: nat) {
    bytesleft != 0 && (PowPositive(256, bytesleft); x / Pow(256, bytesleft) != 0)
  }

  /** The carry and the mask together reject a prefix exactly when its number needs more than width bytes. */
  lemma GuardsAreRight(text: string, i: nat, width: nat, outi: seq<limb>, c: int)
    requires i <= |text| && ValidText(text[..i]) && |outi| == (width + 3) / 4 && c >= 0
    requires c * Pow(LIMB, |outi|) + Value(outi, LIMB) == Value(DigitsOf(text[..i]), 58)
    ensures c != 0 ==> DecodeText(text, width) == None
    ensures c == 0 && outi != [] && Overfull(outi[0], width % 4) ==> DecodeText(text, width) == None
    ensures c == 0 && outi != [] && !Overfull(outi[0], width % 4) ==> Value(outi, LIMB) < Pow(256, width)
  {
    TopLimb(outi, width);
    ValueBound(outi, LIMB);
    PowPositive(256, width % 4);
    if c != 0 {
      MulMonotone(c, 1, Pow(LIMB, |outi|));
      Rejected(text, i, width);
    } else if outi != [] {
      MaskTest(outi[0], Pow(256, width % 4));
      if Overfull(outi[0], width % 4) { Rejected(text, i, width); }
    }
  }

  lemma MaskTest(x: int, p: int)
    requires 0 <= x && 0 < p
    ensures x / p != 0 <==> x >= p
  {
    assert x == p * (x / p) + x % p;
    if x < p { DivMod(0, x, p); }
  }

  lemma StartOfDigits(text: string, z: nat, outi: seq<limb>, width: nat)
    requires z <= |text| && forall k :: 0 <= k < z ==> text[k] == '1'
    requires forall k :: 0 <= k < |outi| ==> outi[k] == 0
    ensures ValidText(text[..z]) && Value(DigitsOf(text[..z]), 58) == 0
    ensures Value(outi, LIMB) == 0 < Pow(256, width)
  {
    ValueZeros(outi, |outi|, LIMB);
    ValueZeros(DigitsOf(text[..z]), z, 58);
    PowPositive(256, width);
  }

  lemma NextDigit(text: string, i: nat)
    requires i < |text| && ValidText(text[..i]) && ValidChar(text[i])
    ensures 0 <= DigitOf(text[i]) < 58 && (text[i] != '1' ==> DigitOf(text[i]) != 0)
    ensures ValidText(text[..i + 1])
    ensures Value(DigitsOf(text[..i + 1]), 58) == 58 * Value(DigitsOf(text[..i]), 58) + DigitOf(text[i])
  {
    TablesAreInverse(text[i], 0);
    var s, t := text[..i], text[..i + 1];
    assert forall k :: 0 <= k < i ==> t[k] == s[k];
    assert DigitsOf(t)[..i] == DigitsOf(s);
  }

  /** Writes the k low bytes of x, most significant first. */
  method WriteLimb(bin: array<byte>, at: nat, x: limb, k: nat)
    requires at + k <= bin.Length && k <= 4
    modifies bin
    ensures bin[at..at + k] == Fixed(x, 256, k)
    ensures forall i :: 0 <= i < bin.Length && !(at <= i < at + k) ==> bin[i] == old(bin[i])
  {
    var i := k;
    PowPositive(256, k);
    while i > 0
      invariant 0 <= i <= k && Pow(256, i) > 0
      invariant bin[at..at + k - i] == Fixed(x / Pow(256, i), 256, k - i)
      invariant forall p :: 0 <= p < bin.Length && !(at <= p < at + k - i) ==> bin[p] == old(bin[p])
    {
      ShiftByte(x, i - 1);
      ghost var was := bin[at..at + k - i];
      PowPositive(256, i - 1);
      bin[at + k - i] := x / Pow(256, i - 1) % 256;
      i := i - 1;
      assert bin[at..at + k - i] == was + [bin[at + k - i - 1]];
    }
    assert x / 1 == x;
  }

  lemma ShiftByte(x: int, i: nat)
    requires 0 <= x
    ensures Pow(256, i) > 0 && x / Pow(256, i) >= 0
    ensures x / Pow(256, i) / 256 == x / Pow(256, i + 1)
  {
    PowPositive(256, i);
    DivDiv(x, Pow(256, i), 256);
  }

  lemma DivDiv(x: int, a: int, b: int)
    requires 0 <= x && 0 < a && 0 < b
    ensures a * b > 0 && x / a >= 0 && x / a / b == x / (a * b)
  {
    var q, r := x / a, x % a;
    assert x == a * q + r;
    if q < 0 { MulMonotone(-1, q, a); }
    var s, t := q / b, q % b;
    assert q == b * s + t;
    assert x == (a * b) * s + (a * t + r) by { assert a * (b * s + t) == (a * b) * s + a * t; }
    MulMonotone(b - 1, t, a);
    assert a * t == t * a && (b - 1) * a == a * b - a;
    MulMonotone(t, 0, a);
    assert s * (a * b) == (a * b) * s;
    DivMod(s, a * t + r, a * b);
  }

  /** The big-endian bytes of the limbs; only the bytes left over are taken from the first one. */
  method WriteBytes(bin: array<byte>, outi: array<limb>, binsz: nat)
    requires binsz <= bin.Length && outi.Length == (binsz + 3) / 4
    requires Value(outi[..], LIMB) < Pow(256, binsz)
    modifies bin
    ensures 0 <= Value(outi[..], LIMB) && bin[..binsz] == Fixed(Value(outi[..], LIMB), 256, binsz)
    ensures forall i :: binsz <= i < bin.Length ==> bin[i] == old(bin[i])
  {
    var bytesleft := binsz % 4;
    var j := 0;
    if bytesleft != 0 {
      WriteFirstLimb(bin, outi, binsz);
      j := 1;
    }
    WriteWholeLimbs(bin, outi, bytesleft, j);
    assert bytesleft + 4 * (outi.Length - j) == binsz;
    FixedUnique(bin[..binsz], 256);
  }

  method WriteFirstLimb(bin: array<byte>, outi: array<limb>, binsz: nat)
    requires binsz <= bin.Length && outi.Length == (binsz + 3) / 4 && binsz % 4 != 0
    requires Value(outi[..], LIMB) < Pow(256, binsz)
    modifies bin
    ensures Value(bin[..binsz % 4], 256) == Value(outi[..1], LIMB)
    ensures forall i :: binsz % 4 <= i < bin.Length ==> bin[i] == old(bin[i])
  {
    WriteLimb(bin, 0, outi[0], binsz % 4);
    FirstLimb(outi[..], binsz);
    assert outi[..][..1] == outi[..1];
    assert bin[..binsz % 4] == bin[0..0 + binsz % 4];
  }

  method WriteWholeLimbs(bin: array<byte>, outi: array<limb>, start: nat, first: nat)
    requires first <= outi.Length && start + 4 * (outi.Length - first) <= bin.Length
    requires Value(bin[..start], 256) == Value(outi[..first], LIMB)
    modifies bin
    ensures Value(bin[..start + 4 * (outi.Length - first)], 256) == Value(outi[..], LIMB)
    ensures forall i :: start + 4 * (outi.Length - first) <= i < bin.Length ==> bin[i] == old(bin[i])
  {
    ghost var limbs := outi[..];
    ghost var end := start + 4 * (outi.Length - first);
    var j, at := first, start;
    while j < outi.Length
      invariant first <= j <= outi.Length && at == end - 4 * (outi.Length - j) && outi[..] == limbs
      invariant Value(bin[..at], 256) == Value(limbs[..j], LIMB)
      invariant forall i :: end <= i < bin.Length ==> bin[i] == old(bin[i])
    {
      WriteWholeLimb(bin, at, outi[j], limbs, j);
      j, at := j + 1, at + 4;
    }
    assert limbs[..j] == limbs;
  }

  method WriteWholeLimb(bin: array<byte>, at: nat, x: limb, ghost limbs: seq<limb>, ghost j: nat)
    requires at + 4 <= bin.Length && j < |limbs| && x == limbs[j]
    requires Value(bin[..at], 256) == Value(limbs[..j], LIMB)
    modifies bin
    ensures Value(bin[..at + 4], 256) == Value(limbs[..j + 1], LIMB)
    ensures forall i :: at + 4 <= i < bin.Length ==> bin[i] == old(bin[i])
  {
    ghost var before := bin[..at];
    WriteLimb(bin, at, x, 4);
    assert bin[..at] == before;
    assert bin[..at + 4] == before + bin[at..at + 4];
    AppendLimb(before, limbs, j);
  }

  lemma FirstLimb(limbs: seq<limb>, width: nat)
    requires |limbs| == (width + 3) / 4 && width % 4 != 0 && Value(limbs, LIMB) < Pow(256, width)
    ensures Value(Fixed(limbs[0], 256, width % 4), 256) == Value(limbs[..1], LIMB)
  {
    TopLimb(limbs, width);
    FixedValue(limbs[0], 256, width % 4);
    assert limbs[..1] == [] + [limbs[0]];
    assert Value([limbs[0]], LIMB) == Value([], LIMB) * LIMB + limbs[0] by { assert [limbs[0]][..0] == []; }
  }

  lemma AppendLimb(bytes: seq<byte>, limbs: seq<limb>, j: nat)
    requires j < |limbs| && Value(bytes, 256) == Value(limbs[..j], LIMB)
    ensures Value(bytes + Fixed(limbs[j], 256, 4), 256) == Value(limbs[..j + 1], LIMB)
  {
    LimbIsFourBytes();
    FixedValue(limbs[j], 256, 4);
    ValueConcat(bytes, Fixed(limbs[j], 256, 4), 256);
    assert limbs[..j + 1][..j] == limbs[..j];
  }

  /** b58tobin with its guards braced. outSz is what the source stores back into *binszp. */
  method Decode(bin: array<byte>, binsz: nat, b58: string, b58sz: nat) returns (ok: bool, outSz: nat)
    requires binsz <= bin.Length && CString(b58, b58sz)
    modifies bin
    ensures ok <==> DecodeText(Text(b58, b58sz), binsz).Some?
    ensures ok ==> (bin[..binsz], outSz) == DecodeText(Text(b58, b58sz), binsz).value
    ensures ok ==> forall i :: binsz <= i < bin.Length ==> bin[i] == old(bin[i])
    ensures !ok ==> outSz == binsz && bin[..] == old(bin[..])
  {
    var text := Text(b58, b58sz);
    outSz := binsz;
    var outi: array<limb>, zerocount: nat;
    ok, outi, zerocount := ReadDigits(text, binsz);
    if !ok { return; }
    WriteBytes(bin, outi, binsz);
    BytesAreFixed(Value(outi[..], LIMB), binsz);
    ghost var bytes := bin[..binsz];
    var i := 0;
    while i < binsz && bin[i] == 0
      invariant i <= binsz && bin[..binsz] == bytes && outSz == binsz - i
      invariant forall k :: 0 <= k < i ==> bytes[k] == 0
      invariant forall k :: binsz <= k < bin.Length ==> bin[k] == old(bin[k])
    {
      outSz := outSz - 1;
      i := i + 1;
    }
    assert i < binsz ==> bytes[i] != 0;
    ZerosCount(bytes, i);
    outSz := outSz + zerocount;
  }

  // ---------------------------------------------------------------- the decoder as the file has it

  /** What the unbraced guards leave of the decoder. */
  function AsWrittenText(s: string, width: nat): Option<(seq<byte>, nat)> {
    if LeadingOnes(s) < |s| then None else Some((Bytes(0, width), |s|))
  }

  /** b58tobin without the missing braces: the return after the first guard belongs to no guard. */
  method DecodeAsWritten(bin: array<byte>, binsz: nat, b58: string, b58sz: nat) returns (ok: bool, outSz: nat)
    requires binsz <= bin.Length && CString(b58, b58sz)
    modifies bin
    ensures ok <==> AsWrittenText(Text(b58, b58sz), binsz).Some?
    ensures ok ==> (bin[..binsz], outSz) == AsWrittenText(Text(b58, b58sz), binsz).value
    ensures !ok ==> outSz == binsz && bin[..] == old(bin[..])
  {
    var text := Text(b58, b58sz);
    var outi := new limb[(binsz + 3) / 4](i => 0);
    var i := 0;
    while i < |text| && text[i] == '1'
      invariant i <= |text| && forall k :: 0 <= k < i ==> text[k] == '1'
    {
      i := i + 1;
    }
    OnesCount(text, i);
    if i < |text| {
      return false, binsz;
    }
    StartOfDigits(text, 0, outi[..], binsz);
    WriteBytes(bin, outi, binsz);
    BytesAreFixed(0, binsz);
    FixedValue(0, 256, binsz);
    AllZero(bin[..binsz]);
    ok, outSz := true, |text|;
  }

  lemma {:induction false} AllZero(s: seq<byte>)
    requires Value(s, 256) == 0
    ensures LeadingZeros(s) == |s|
  {
    var z := LeadingZeros(s);
    ValueZeros(s, z, 256);
    CanonicalUnique(s[z..], 256);
  }

  lemma AllOnes(s: string, width: nat)
    requires LeadingOnes(s) == |s|
    ensures DecodeText(s, width) == Some((Bytes(0, width), |s|))
  {
    TablesAreInverse('1', 0);
    StartOfDigits(s, |s|, [], width);
    assert s[..|s|] == s;
    BytesAreFixed(0, width);
    FixedValue(0, 256, width);
    AllZero(Bytes(0, width));
  }

  /** The written decoder does what was intended exactly on texts of '1's and on texts to be rejected anyway:
      an invalid character, or a number too big for the buffer. */
  lemma AsWrittenAgreesExactly(s: string, width: nat)
    ensures AsWrittenText(s, width) == DecodeText(s, width)
      <==> LeadingOnes(s) == |s| || (ValidText(s) ==> Value(DigitsOf(s), 58) >= Pow(256, width))
  {
    if LeadingOnes(s) == |s| { AllOnes(s, width); }
  }

  /** "2" is the text of the one byte 1; it is turned away. */
  lemma AsWrittenRejectsTwo()
    ensures EncodeText([1]) == "2" && DecodeText("2", 1) == Some(([1], 1)) && AsWrittenText("2", 1) == None
  {
    DecodeEncode([1]);
    assert Number([1]) == 1 by { assert Value([], 256) == 0; assert [1][..0] == []; }
    assert Canonical(1, 58) == [1];
  }
}
