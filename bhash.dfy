/**
 * `CalculateBHash` (blackhole2/src/data/bhash.c), the deprecated 64-bit
 * client identifier hash.  Every step is on `uint64_t`, so the model uses
 * `bv64`, whose `+`, `*` and `^` wrap modulo 2^64 exactly as the C code does.
 *
 * The byte loop dereferences `data` in each of its `length` rounds but never
 * advances it, so only the first byte is ever read.
 */
module BHash {
  import opened Bytes

  const HashOrigin: bv64 := 0x36fa2296f7439
  const HashPrime: bv64 := 0x39bcbddd021
  /**
   * `HASH_SALT`, the string "_EraP.TaX_" as ASCII codes.  The salt loop runs
   * `sizeof(HASH_SALT) - 1` = 10 times; every code is below 0x80, so the
   * signedness of `char` does not change what is XORed in.
   */
  const HashSalt: seq<byte> := [0x5F, 0x45, 0x72, 0x61, 0x50, 0x2E, 0x54, 0x61, 0x58, 0x5F]

  /** One round of the byte loop: `res ^= *data; res += HASH_PRIME;`. */
  function ByteRound(res: bv64, b: byte): bv64
  {
    (res ^ (b as bv64)) + HashPrime
  }

  /** The accumulator after `n` rounds of the byte loop, each on the same byte `b`. */
  function ByteRounds(n: nat, b: byte): bv64
  {
    if n == 0 then HashOrigin else ByteRound(ByteRounds(n - 1, b), b)
  }

  /** One round of the salt loop: `res ^= HASH_SALT[i]; res *= HASH_PRIME;`. */
  function SaltRound(res: bv64, c: byte): bv64
  {
    (res ^ (c as bv64)) * HashPrime
  }

  /** The accumulator after the first `k` rounds of the salt loop, starting from `res`. */
  function SaltRounds(res: bv64, k: nat): bv64
    requires k <= |HashSalt|
  {
    if k == 0 then res else SaltRound(SaltRounds(res, k - 1), HashSalt[k - 1])
  }

  /** The single multiplication between the two loops: `res *= HASH_PRIME;`. */
  function Scramble(res: bv64): bv64
  {
    res * HashPrime
  }

  /** The hash of a buffer of `length` bytes whose first byte is `first`. */
  function BHashOf(length: nat, first: byte): bv64
  {
    SaltRounds(Scramble(ByteRounds(length, first)), |HashSalt|)
  }

  /** The hash the byte loop would compute if it advanced through `data`. */
  function AdvancingRounds(data: seq<byte>): bv64
  {
    if data == [] then HashOrigin else ByteRound(AdvancingRounds(data[..|data| - 1]), data[|data| - 1])
  }

  /** The byte the loop reads, `*data`; it is read only when `length > 0`, and any value will do otherwise. */
  function FirstByte(length: nat, data: seq<byte>): byte
    requires length > 0 ==> |data| > 0
  {
    if length > 0 then data[0] else 0
  }

  /** `CalculateBHash(length, data)`: only `*data` is read, and only when `length > 0`. */
  method CalculateBHash(length: nat, data: seq<byte>) returns (res: bv64)
    requires length > 0 ==> |data| > 0
    ensures res == BHashOf(length, FirstByte(length, data))
  {
    ghost var first := FirstByte(length, data);
    res := HashOrigin;
    var i := 0;
    while i < length
      invariant i <= length
      invariant res == ByteRounds(i, first)
    {
      res := ByteRound(res, data[0]);
      i := i + 1;
    }
    res := Scramble(res);
    ghost var afterBytes := res;
    var j := 0;
    while j < |HashSalt|
      invariant j <= |HashSalt|
      invariant res == SaltRounds(afterBytes, j)
    {
      res := SaltRound(res, HashSalt[j]);
      j := j + 1;
    }
  }

  /** The ten salt rounds applied to the accumulator of an empty buffer, one value per round. */
  lemma {:induction false} EmptySaltRounds()
    ensures SaltRounds(0x25d655756e014b59, 10) == 0x851445e2c343775c
  {
    assert SaltRounds(0x25d655756e014b59, 1) == SaltRound(0x25d655756e014b59, 0x5F) == 0x8954e9c1c14d8bc6;
    assert SaltRounds(0x25d655756e014b59, 2) == SaltRound(0x8954e9c1c14d8bc6, 0x45) == 0x1501edec3d706be3;
    assert SaltRounds(0x25d655756e014b59, 3) == SaltRound(0x1501edec3d706be3, 0x72) == 0x848ca0831a10adb1;
    assert SaltRounds(0x25d655756e014b59, 4) == SaltRound(0x848ca0831a10adb1, 0x61) == 0xd9869d3de5ef67d0;
    assert SaltRounds(0x25d655756e014b59, 5) == SaltRound(0xd9869d3de5ef67d0, 0x50) == 0x440b110c01745780;
    assert SaltRounds(0x25d655756e014b59, 6) == SaltRound(0x440b110c01745780, 0x2E) == 0x3e43970b6272ad6e;
    assert SaltRounds(0x25d655756e014b59, 7) == SaltRound(0x3e43970b6272ad6e, 0x54) == 0x50cb34ef6699747a;
    assert SaltRounds(0x25d655756e014b59, 8) == SaltRound(0x50cb34ef6699747a, 0x61) == 0xf981351c8c6ce77b;
    assert SaltRounds(0x25d655756e014b59, 9) == SaltRound(0xf981351c8c6ce77b, 0x58) == 0xee73fb43e00d3b83;
    assert SaltRounds(0x25d655756e014b59, 10) == SaltRound(0xee73fb43e00d3b83, 0x5F) == 0x851445e2c343775c;
  }

  /** With `length == 0` no byte is read and the hash is one fixed constant. */
  lemma EmptyBHash(b: byte)
    ensures BHashOf(0, b) == 0x851445e2c343775c
  {
    assert Scramble(ByteRounds(0, b)) == Scramble(HashOrigin) == 0x25d655756e014b59;
    EmptySaltRounds();
  }

  /**
   * The hash of `data` as written equals the hash an advancing loop would
   * give for `length` copies of `data[0]`: every byte after the first is ignored.
   */
  lemma {:induction false} RepeatsFirstByte(length: nat, b: byte)
    ensures ByteRounds(length, b) == AdvancingRounds(seq(length, _ => b))
  {
    if length > 0 {
      RepeatsFirstByte(length - 1, b);
      assert seq(length, _ => b)[..length - 1] == seq(length - 1, _ => b);
    }
  }

  /**
   * The hash loses information: the inputs 00 00 and 00 01 read the same
   * byte and so hash alike, although a loop that advanced through `data`
   * would tell them apart.
   */
  lemma TailIgnored()
    ensures FirstByte(2, [0, 0]) == FirstByte(2, [0, 1])
    ensures AdvancingRounds([0, 0]) != AdvancingRounds([0, 1])
  {
    var prefix: seq<byte> := [0];
    assert [0, 0][..1] == prefix && [0, 1][..1] == prefix;
    assert prefix[..0] == [];
    var p := AdvancingRounds(prefix);
    assert p == ByteRound(HashOrigin, 0);
    assert AdvancingRounds([0, 0]) == ByteRound(p, 0);
    assert AdvancingRounds([0, 1]) == ByteRound(p, 1);
  }
}
