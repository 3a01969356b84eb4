/** Fixed-width machine integers and little-endian byte strings.

    Arithmetic is done on unbounded integers; every place where the program's 64-bit or
    32-bit registers would wrap is written out with `%` in the module that needs it. */
module Machine {

  const TWO8: int := 0x100
  const TWO16: int := 0x1_0000
  const TWO32: int := 0x1_0000_0000
  const TWO63: int := 0x8000_0000_0000_0000
  const TWO64: int := 0x1_0000_0000_0000_0000
  const U64_MAX: int := TWO64 - 1

  type byte = x: int | 0 <= x < 0x100
  type u16 = x: int | 0 <= x < 0x1_0000
  type u32 = x: int | 0 <= x < 0x1_0000_0000
  type u64 = x: int | 0 <= x < 0x1_0000_0000_0000_0000
  type i32 = x: int | -0x8000_0000 <= x < 0x8000_0000
  type i64 = x: int | -0x8000_0000_0000_0000 <= x < 0x8000_0000_0000_0000

  datatype Option<+T> = None | Some(value: T)

  datatype Result<+T, +E> = Ok(value: T) | Err(error: E)

  /** 256 to the power `n`. */
  function Pow256(n: nat): (p: int)
    ensures p >= 1
  {
    if n == 0 then 1 else 256 * Pow256(n - 1)
  }

  /** The low `n` bytes of `v`, least significant first. */
  function LittleEndian(n: nat, v: nat): (s: seq<byte>)
    ensures |s| == n
    decreases n
  {
    if n == 0 then [] else [v % 256] + LittleEndian(n - 1, v / 256)
  }

  /** The number whose little-endian bytes are `s`. */
  function FromLittleEndian(s: seq<byte>): (v: nat)
    ensures v < Pow256(|s|)
  {
    if s == [] then 0 else s[0] + 256 * FromLittleEndian(s[1..])
  }

  lemma {:induction false} DecodeEncode(n: nat, v: nat)
    requires v < Pow256(n)
    ensures FromLittleEndian(LittleEndian(n, v)) == v
    decreases n
  {
    if n > 0 {
      DecodeEncode(n - 1, v / 256);
      assert LittleEndian(n, v)[1..] == LittleEndian(n - 1, v / 256);
    }
  }

  lemma {:induction false} EncodeDecode(s: seq<byte>)
    ensures LittleEndian(|s|, FromLittleEndian(s)) == s
  {
    if s != [] {
      EncodeDecode(s[1..]);
      var rest := FromLittleEndian(s[1..]);
      assert (s[0] + 256 * rest) % 256 == s[0] && (s[0] + 256 * rest) / 256 == rest;
    }
  }

  /** `v >> (8 * i)`. */
  function ShiftRightBytes(v: nat, i: nat): (r: nat)
    decreases i
  {
    if i == 0 then v else ShiftRightBytes(v / 256, i - 1)
  }

  /** Byte `i` of the encoding is the value shifted right by `8 * i`, masked to eight bits. */
  lemma {:induction false} LittleEndianAt(n: nat, v: nat, i: nat)
    requires i < n
    ensures LittleEndian(n, v)[i] == ShiftRightBytes(v, i) % 256
    decreases n
  {
    if i > 0 {
      LittleEndianAt(n - 1, v / 256, i - 1);
    }
  }

  /** The widths used by the program: two, four and eight bytes. */
  lemma Widths()
    ensures Pow256(1) == TWO8 && Pow256(2) == TWO16 && Pow256(4) == TWO32 && Pow256(8) == TWO64
  {
    assert Pow256(1) == 256 * Pow256(0) && Pow256(2) == 256 * Pow256(1) && Pow256(3) == 256 * Pow256(2);
    assert Pow256(4) == 256 * Pow256(3) && Pow256(5) == 256 * Pow256(4) && Pow256(6) == 256 * Pow256(5);
    assert Pow256(7) == 256 * Pow256(6) && Pow256(8) == 256 * Pow256(7);
  }

  lemma Fits64(v: u64)
    ensures v < Pow256(8)
  {
    Widths();
  }

  lemma {:induction false} FromAppend(s: seq<byte>, b: byte)
    ensures FromLittleEndian(s + [b]) == FromLittleEndian(s) + b * Pow256(|s|)
  {
    if s == [] {
      assert [b][1..] == [];
    } else {
      assert (s + [b])[1..] == s[1..] + [b];
      FromAppend(s[1..], b);
      Regroup(b, Pow256(|s| - 1));
    }
  }

  lemma Regroup(b: int, p: int)
    ensures 256 * (b * p) == b * (256 * p)
  {
  }

  lemma PowStep(n: nat)
    ensures Pow256(n + 1) == 256 * Pow256(n)
  {
  }

  /** Reading one byte more. */
  lemma ReadStep(bytes: seq<byte>, offset: nat, i: nat)
    requires offset + i < |bytes|
    ensures FromLittleEndian(bytes[offset..offset + i + 1])
         == FromLittleEndian(bytes[offset..offset + i]) + bytes[offset + i] * Pow256(i)
  {
    hide FromLittleEndian, Pow256;
    FromAppend(bytes[offset..offset + i], bytes[offset + i]);
    assert bytes[offset..offset + i + 1] == bytes[offset..offset + i] + [bytes[offset + i]];
  }

  lemma NothingRead()
    ensures FromLittleEndian([]) == 0 && Pow256(0) == 1
  {
  }

  /** The byte appenders: the low `n` bytes of a value, least significant first. */
  method AppendLittleEndian(bytes: seq<byte>, n: nat, value: nat) returns (r: seq<byte>)
    ensures r == bytes + LittleEndian(n, value)
  {
    r := bytes;
    var i := 0;
    while i < n
      invariant 0 <= i <= n
      invariant r == bytes + LittleEndian(n, value)[..i]
    {
      LittleEndianAt(n, value, i);
      r := r + [ShiftRightBytes(value, i) % 256];
      i := i + 1;
    }
  }

  /** The byte readers: each byte is shifted into place and accumulated. */
  method ReadLittleEndian(bytes: seq<byte>, offset: nat, n: nat) returns (value: nat)
    requires offset + n <= |bytes|
    ensures value == FromLittleEndian(bytes[offset..offset + n]) && value < Pow256(n)
  {
    hide FromLittleEndian, Pow256;
    NothingRead();
    value := 0;
    var i: nat, weight: nat := 0, 1;
    while i < n
      invariant 0 <= i <= n && weight == Pow256(i)
      invariant value == FromLittleEndian(bytes[offset..offset + i])
    {
      ReadStep(bytes, offset, i);
      PowStep(i);
      value := value + bytes[offset + i] * weight;
      weight := 256 * weight;
      i := i + 1;
    }
  }

  /** `encode_le64`. */
  method EncodeLe64(value: u64) returns (bytes: seq<byte>)
    ensures bytes == LittleEndian(8, value)
  {
    bytes := AppendLittleEndian([], 8, value);
  }
}
