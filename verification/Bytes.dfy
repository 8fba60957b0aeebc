/** Little-endian fields and the pieces of a byte buffer they occupy. */
module Bytes {
  import opened Wrappers

  type Bytes = seq<bv8>

  const U16_MAX: nat := 0xffff
  const U32_MAX: nat := 0xffff_ffff

  function ValueOf(b: bv8): (n: nat)
    ensures n < 256
  {
    b as int
  }

  /** n as a u8, by counting, so that its value needs no integer-to-bitvector reasoning. */
  function ByteOf(n: nat): (b: bv8)
    requires n < 256
    ensures ValueOf(b) == n
  {
    if n == 0 then 0 else ByteOf(n - 1) + 1
  }

  lemma ValueInjective(b: bv8, c: bv8)
    requires ValueOf(b) == ValueOf(c)
    ensures b == c
  {
    assert (b as int) as bv8 == b && (c as int) as bv8 == c;
  }

  /** The low 16 bits of n, least significant byte first. */
  function LE16(n: nat): (bytes: Bytes)
    ensures |bytes| == 2
  {
    [ByteOf(n % 256), ByteOf(n / 256 % 256)]
  }

  /** The low 32 bits of n, least significant byte first. */
  function LE32(n: nat): (bytes: Bytes)
    ensures |bytes| == 4
  {
    LE16(n) + LE16(n / 0x1_0000)
  }

  /** read_u16: None when the two bytes are not inside the input. */
  function ReadU16(input: Bytes, offset: nat): (r: Option<nat>)
    ensures r.Some? <==> offset + 2 <= |input|
    ensures r.Some? ==> r.value <= U16_MAX
  {
    if offset + 2 <= |input| then Some(ValueOf(input[offset]) + 256 * ValueOf(input[offset + 1])) else None
  }

  /** read_u32: None when the four bytes are not inside the input. */
  function ReadU32(input: Bytes, offset: nat): (r: Option<nat>)
    ensures r.Some? ==> r.value <= U32_MAX
  {
    if offset + 4 <= |input| then
      Some(ReadU16(input, offset).value + 0x1_0000 * ReadU16(input, offset + 2).value)
    else
      None
  }

  /** `piece` occupies the buffer from `offset` on. */
  predicate At(buffer: Bytes, offset: nat, piece: Bytes) {
    offset + |piece| <= |buffer| && buffer[offset..offset + |piece|] == piece
  }

  lemma AtConcat(buffer: Bytes, offset: nat, left: Bytes, right: Bytes)
    ensures At(buffer, offset, left + right) <==> At(buffer, offset, left) && At(buffer, offset + |left|, right)
  {
    var piece := left + right;
    if At(buffer, offset, piece) {
      assert buffer[offset..offset + |left|] == piece[..|left|] == left;
      assert buffer[offset + |left|..offset + |piece|] == piece[|left|..] == right;
    }
    if At(buffer, offset, left) && At(buffer, offset + |left|, right) {
      assert buffer[offset..offset + |piece|]
          == buffer[offset..offset + |left|] + buffer[offset + |left|..offset + |left| + |right|];
    }
  }

  lemma ReadU16At(input: Bytes, offset: nat, n: nat)
    requires n <= U16_MAX
    ensures ReadU16(input, offset) == Some(n) <==> At(input, offset, LE16(n))
  {
    hide ByteOf, ValueOf;
    if ReadU16(input, offset) == Some(n) {
      ValueInjective(input[offset], ByteOf(n % 256));
      ValueInjective(input[offset + 1], ByteOf(n / 256 % 256));
      assert input[offset..offset + 2] == LE16(n);
    }
    if At(input, offset, LE16(n)) {
      assert input[offset] == LE16(n)[0] && input[offset + 1] == LE16(n)[1];
    }
  }

  lemma ReadU32At(input: Bytes, offset: nat, n: nat)
    requires n <= U32_MAX
    ensures ReadU32(input, offset) == Some(n) <==> At(input, offset, LE32(n))
  {
    hide LE16, ReadU16, At;
    ReadU16At(input, offset, n % 0x1_0000);
    ReadU16At(input, offset + 2, n / 0x1_0000);
    LE16Low(n);
    AtConcat(input, offset, LE16(n), LE16(n / 0x1_0000));
  }

  lemma LE16Low(n: nat)
    ensures LE16(n % 0x1_0000) == LE16(n)
  {
    assert n % 0x1_0000 % 256 == n % 256;
    assert n % 0x1_0000 / 256 % 256 == n / 256 % 256;
  }
}
