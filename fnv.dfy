/**
 * The 64-bit key fingerprint: FNV-1a as specified in the IETF FNV draft
 * (draft-eastlake-fnv), section 2, with the 64-bit offset basis and prime,
 * reinterpreted as a signed int64 the way `int64(hasher.Sum64())` does.
 * The 64-bit state is kept as a natural number below 2^64.
 */
module Fnv {
  import opened Bytes
  import opened Machine

  const OFFSET_BASIS_64: nat := 0xcbf2_9ce4_8422_2325
  const PRIME_64: nat := 0x0000_0100_0000_01b3

  /** The low `width` bits of the bitwise exclusive or of x and y. */
  function XorBits(x: nat, y: nat, width: nat): nat
  {
    if width == 0 then 0 else (x % 2 + y % 2) % 2 + 2 * XorBits(x / 2, y / 2, width - 1)
  }

  /** Exclusive or of byte b into the low byte of the state h. */
  function XorLow(h: nat, b: byte): nat
  {
    h - h % 256 + XorBits(h % 256, b, 8)
  }

  /** FNV-1a: for each byte, xor it into the hash, then multiply by the prime modulo 2^64. */
  function Fnv1a64(s: seq<byte>): (h: nat)
    ensures h < TWO_POW_64
    decreases |s|
  {
    if s == [] then OFFSET_BASIS_64
    else XorLow(Fnv1a64(s[..|s| - 1]), s[|s| - 1]) * PRIME_64 % TWO_POW_64
  }

  /** Go's `int64(u)` for a uint64 u: the same 64 bits read as two's complement. */
  function AsInt64(h: nat): (r: int)
    requires h < TWO_POW_64
    ensures IsInt64(r)
    ensures r % TWO_POW_64 == h
  {
    if h < TWO_POW_64 / 2 then h else h - TWO_POW_64
  }

  /** The map key under which a line's aggregate is kept. */
  function Fingerprint(key: seq<byte>): (fp: int)
    ensures IsInt64(fp)
  {
    AsInt64(Fnv1a64(key))
  }

  /** The test vector FNV-1a-64("a") = 0xaf63dc4c8601ec8c. */
  lemma TestVectorA()
    ensures Fnv1a64([97]) == 0xaf63_dc4c_8601_ec8c
  {
    assert [97][..0] == [];
    assert XorBits(0, 0, 1) == 0;
    assert XorBits(0, 1, 2) == 1;
    assert XorBits(1, 3, 3) == 2;
    assert XorBits(2, 6, 4) == 4;
    assert XorBits(4, 12, 5) == 8;
    assert XorBits(9, 24, 6) == 17;
    assert XorBits(18, 48, 7) == 34;
    assert XorBits(37, 97, 8) == 68;
    DivModUnique(OFFSET_BASIS_64, 256, 0xcb_f29c_e484_2223, 37);
    assert XorLow(OFFSET_BASIS_64, 97) == 0xcbf2_9ce4_8422_2344;
    DivModUnique(0xcbf2_9ce4_8422_2344 * PRIME_64, TWO_POW_64, 0xcb_f29c_e5de, 0xaf63_dc4c_8601_ec8c);
  }
}
