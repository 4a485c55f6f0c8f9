/** Bytes, optional values, and the little-endian numbers that the files store. */
module ByteCodec {
  import opened Numerals

  type byte = x: int | 0 <= x < 256

  datatype Option<+T> = None | Some(value: T)
  datatype Result<+T, +E> = Ok(value: T) | Err(error: E)

  function LittleEndian(n: nat, width: nat): (s: seq<byte>)
    ensures |s| == width
    decreases width
  {
    if width == 0 then [] else [n % 256] + LittleEndian(n / 256, width - 1)
  }

  function FromLittleEndian(s: seq<byte>): (n: nat) {
    if s == [] then 0 else s[0] + 256 * FromLittleEndian(s[1..])
  }

  lemma {:induction false} LittleEndianValue(n: nat, width: nat)
    requires n < Pow(256, width)
    ensures FromLittleEndian(LittleEndian(n, width)) == n
    decreases width
  {
    if width > 0 {
      assert n / 256 < Pow(256, width - 1);
      LittleEndianValue(n / 256, width - 1);
      assert LittleEndian(n, width)[1..] == LittleEndian(n / 256, width - 1);
    }
  }

  lemma SmallPowers()
    ensures Pow(256, 1) == 0x100 && Pow(256, 2) == 0x1_0000 && Pow(256, 4) == 0x1_0000_0000
    ensures Pow(256, 8) == 0x1_0000_0000_0000_0000
  {
    assert Pow(256, 2) == 256 * Pow(256, 1);
    assert Pow(256, 4) == 256 * (256 * Pow(256, 2));
    assert Pow(256, 6) == 256 * (256 * Pow(256, 4));
    assert Pow(256, 8) == 256 * (256 * Pow(256, 6));
  }
}
