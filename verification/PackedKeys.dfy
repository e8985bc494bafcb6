/** The value of a getopt long option: an argp group and a user key packed into one `int`. */
module PackedKeys {

  const KEY_END := -1
  const KEY_ARG := 1
  const KEY_ERR := 63

  /** Reduction of a mathematical integer to a 32-bit `int`. */
  function Wrap32(x: int): (r: int)
    ensures -0x8000_0000 <= r < 0x8000_0000
  {
    (x + 0x8000_0000) % 0x1_0000_0000 - 0x8000_0000
  }

  /** `(key & USER_MASK) + ((group + 1) << USER_BITS)`. */
  function Pack(key: int, group: nat): int {
    Wrap32(key % 0x100_0000 + (group + 1) * 0x100_0000)
  }

  /** `opt >> USER_BITS`. */
  function GroupKey(opt: int): int { opt / 0x100_0000 }

  /** `(opt << GROUP_BITS) >> GROUP_BITS`. */
  function UserKey(opt: int): int { Wrap32(opt * 256) / 256 }

  /** A key in the signed 24-bit range. */
  predicate UserRange(key: int) { -0x80_0000 <= key < 0x80_0000 }

  lemma WrapKeeps(x: int, k: int)
    ensures Wrap32(x + k * 0x1_0000_0000) == Wrap32(x)
  {}

  /** The packed value is the key's low 24 bits plus a whole number of groups. */
  lemma PackedParts(key: int, group: nat) returns (low: int, high: int)
    ensures 0 <= low < 0x100_0000 && low == key % 0x100_0000 && -128 <= high < 128
    ensures Pack(key, group) == low + high * 0x100_0000 && (group + 1 - high) % 256 == 0
  {
    low := key % 0x100_0000;
    high := (group + 1 + 128) % 256 - 128;
    var k := (group + 1 - high) / 256;
    assert group + 1 == high + 256 * k;
    WrapKeeps(low + high * 0x100_0000, k);
  }

  lemma UserKeyOf(low: int, high: int)
    requires 0 <= low < 0x100_0000
    ensures UserKey(low + high * 0x100_0000) == if low < 0x80_0000 then low else low - 0x100_0000
  {
    WrapKeeps(low * 256, high);
    assert (low + high * 0x100_0000) * 256 == low * 256 + high * 0x1_0000_0000;
  }

  /** Unpacking gives group and signed key back exactly when there are at most 127 groups before
      and including it and the key fits in 24 bits with its sign. */
  lemma UnpackPack(key: int, group: nat)
    ensures (GroupKey(Pack(key, group)) == group + 1 && UserKey(Pack(key, group)) == key) <==> group + 1 <= 127 && UserRange(key)
  {
    var low, high := PackedParts(key, group);
    UserKeyOf(low, high);
    assert GroupKey(Pack(key, group)) == high;
  }

  /** A packed value is never one of getopt's own values nor a short option. */
  lemma PackedIsDistinct(key: int, group: nat, short: int)
    requires group + 1 <= 127 && 0 <= short <= 255
    ensures Pack(key, group) !in {KEY_END, KEY_ARG, KEY_ERR, short}
    ensures GroupKey(short) == 0 && GroupKey(Pack(key, group)) != 0
  {
    var low, high := PackedParts(key, group);
    assert high == group + 1;
  }
}
