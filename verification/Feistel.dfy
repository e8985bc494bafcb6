/** The DES core of UFC-crypt: `_ufc_doit_r` in its 64-bit and 32-bit forms and the in-place
    key-schedule reversal of `__encrypt_r`, related to the round structure of FIPS PUB 46-3.
    Machine words are bit sequences, least significant bit first: `s & 0xffff` is `s[..16]`
    and `s >> 16` is `s[16..]`. */
module Feistel {

  type Word = s: seq<bool> | |s| == 64 witness seq(64, _ => false)
  type Half = s: seq<bool> | |s| == 32 witness seq(32, _ => false)
  type Offset = s: seq<bool> | |s| == 16 witness seq(16, _ => false)

  function Xor(a: seq<bool>, b: seq<bool>): (c: seq<bool>)
    requires |a| == |b|
    ensures |c| == |a|
  {
    seq(|a|, i requires 0 <= i < |a| => a[i] != b[i])
  }

  lemma XorCancels(a: seq<bool>, b: seq<bool>)
    requires |a| == |b|
    ensures Xor(Xor(a, b), b) == a
  {}

  /** A word of zeros changes nothing. */
  lemma XorZero(a: seq<bool>, zero: seq<bool>)
    requires |a| == |zero| && forall i | 0 <= i < |zero| :: !zero[i]
    ensures Xor(a, zero) == a == Xor(zero, a)
  {}

  lemma XorAssociative(a: seq<bool>, b: seq<bool>, c: seq<bool>)
    requires |a| == |b| == |c|
    ensures Xor(Xor(a, b), c) == Xor(a, Xor(b, c))
  {}

  // ----- Reference: the enciphering computation of FIPS PUB 46-3 -----

  /** The cipher function f(R, K); the round structure is proved for every such function. */
  type CipherFunction = (Word, Word) -> Word

  datatype Block = Block(l: Word, r: Word) {
    function Swap(): Block { Block(r, l) }
  }

  /** One round: L' = R, R' = L ^ f(R, K). */
  function Round(f: CipherFunction, k: Word, b: Block): Block {
    Block(b.r, Xor(b.l, f(b.r, k)))
  }

  function Rounds(f: CipherFunction, ks: seq<Word>, b: Block): Block {
    if ks == [] then b else Rounds(f, ks[1..], Round(f, ks[0], b))
  }

  /** The preoutput block R16 L16. */
  function Encipher(f: CipherFunction, ks: seq<Word>, b: Block): Block {
    Rounds(f, ks, b).Swap()
  }

  function Iterate(f: CipherFunction, ks: seq<Word>, n: nat, b: Block): Block {
    if n == 0 then b else Encipher(f, ks, Iterate(f, ks, n - 1, b))
  }

  function Reversed<T>(s: seq<T>): seq<T> {
    seq(|s|, i requires 0 <= i < |s| => s[|s| - 1 - i])
  }

  // ----- Deciphering -----

  lemma {:induction false} RoundsAppend(f: CipherFunction, ks: seq<Word>, k: Word, b: Block)
    ensures Rounds(f, ks + [k], b) == Round(f, k, Rounds(f, ks, b))
    decreases ks
  {
    if ks == [] {
      assert ks + [k] == [k] && [k][1..] == [];
    } else {
      assert (ks + [k])[1..] == ks[1..] + [k];
      RoundsAppend(f, ks[1..], k, Round(f, ks[0], b));
    }
  }

  /** Running the rounds with the keys reversed on the swapped block undoes them. */
  lemma {:induction false} RoundsReversed(f: CipherFunction, ks: seq<Word>, b: Block)
    ensures Rounds(f, Reversed(ks), Rounds(f, ks, b).Swap()) == b.Swap()
    decreases ks
  {
    if ks != [] {
      var k, rest := ks[0], ks[1..];
      var c := Round(f, k, b);
      assert Reversed(ks) == Reversed(rest) + [k];
      RoundsReversed(f, rest, c);
      RoundsAppend(f, Reversed(rest), k, Rounds(f, rest, c).Swap());
      XorCancels(b.l, f(b.r, k));
    }
  }

  lemma DecipherEncipher(f: CipherFunction, ks: seq<Word>, b: Block)
    ensures Encipher(f, Reversed(ks), Encipher(f, ks, b)) == b
  {
    RoundsReversed(f, ks, b);
  }

  lemma {:induction false} IterateFirst(f: CipherFunction, ks: seq<Word>, n: nat, b: Block)
    ensures Iterate(f, ks, n + 1, b) == Iterate(f, ks, n, Encipher(f, ks, b))
  {
    if n > 0 {
      IterateFirst(f, ks, n - 1, b);
    }
  }

  /** n iterations followed by n iterations under the reversed schedule are the identity. */
  lemma {:induction false} DecipherIterate(f: CipherFunction, ks: seq<Word>, n: nat, b: Block)
    ensures Iterate(f, Reversed(ks), n, Iterate(f, ks, n, b)) == b
  {
    if n > 0 {
      var c := Iterate(f, ks, n - 1, b);
      IterateFirst(f, Reversed(ks), n - 1, Encipher(f, ks, c));
      DecipherEncipher(f, ks, c);
      DecipherIterate(f, ks, n - 1, b);
    }
  }

  // ----- The 64-bit code -----

  /** A table maps the byte offset used by SBA to the word found there; `sb01` spans `sb0`
      and `sb1`, `sb23` spans `sb2` and `sb3`. */
  datatype SBoxes = SBoxes(sb01: Offset -> Word, sb23: Offset -> Word)

  /** f(R, K) of the code: four look-ups selected by the 16-bit pieces of K ^ R. */
  function TableCipher(t: SBoxes): CipherFunction {
    (r: Word, k: Word) => Selected(t, Xor(k, r))
  }

  function Selected(t: SBoxes, s: Word): Word {
    Xor(Xor(Xor(t.sb23(s[..16]), t.sb23(s[16..32])), t.sb01(s[32..48])), t.sb01(s[48..]))
  }

  /** The 16 bits from bit FROM on of K ^ R, bit by bit. */
  ghost predicate Piece(p: Offset, k: Word, r: Word, from: nat)
    requires from + 16 <= 64
  {
    forall i | 0 <= i < 16 :: p[i] <==> k[from + i] != r[from + i]
  }

  /** A round bit by bit: the old right half moves to the left, and bit J of the new right half is
      bit J of the old left half, flipped once for every one of the four table words that has the
      bit; the low two pieces of K ^ R select from `sb23`, the high two from `sb01`. */
  lemma RoundBit(t: SBoxes, k: Word, b: Block, j: nat, p0: Offset, p1: Offset, p2: Offset, p3: Offset)
    requires j < 64 && Piece(p0, k, b.r, 0) && Piece(p1, k, b.r, 16) && Piece(p2, k, b.r, 32) && Piece(p3, k, b.r, 48)
    ensures var c := Round(TableCipher(t), k, b);
            c.l == b.r && (c.r[j] <==> b.l[j] != (t.sb23(p0)[j] != (t.sb23(p1)[j] != (t.sb01(p2)[j] != t.sb01(p3)[j]))))
  {
    var s := Xor(k, b.r);
    assert s[..16] == p0 && s[16..32] == p1 && s[32..48] == p2 && s[48..] == p3;
  }

  /** The statements `l ^= SBA(sb23, s & 0xffff)` to `l ^= SBA(sb01, s >>= 16)` of a half step. */
  method Mix(t: SBoxes, selector: Word, x: Word) returns (y: Word)
    ensures y == Xor(x, Selected(t, selector))
  {
    var s: seq<bool> := selector;
    var a := t.sb23(s[..16]);
    s := s[16..];
    var b := t.sb23(s[..16]);
    s := s[16..];
    var c := t.sb01(s[..16]);
    s := s[16..];
    var d := t.sb01(s);
    y := Xor(Xor(Xor(Xor(x, a), b), c), d);
    assert selector[16..][..16] == selector[16..32];
    assert selector[16..][16..][..16] == selector[32..48];
    assert selector[16..][16..][16..] == selector[48..];
    XorAssociative(x, a, b);
    XorAssociative(x, Xor(a, b), c);
    XorAssociative(x, Xor(Xor(a, b), c), d);
  }

  lemma TwoRounds(f: CipherFunction, ks: seq<Word>, i: nat, b: Block)
    requires i + 2 <= |ks|
    ensures Rounds(f, ks[..i + 2], b) == Round(f, ks[i + 1], Round(f, ks[i], Rounds(f, ks[..i], b)))
  {
    assert ks[..i + 2] == ks[..i + 1] + [ks[i + 1]];
    assert ks[..i + 1] == ks[..i] + [ks[i]];
    RoundsAppend(f, ks[..i + 1], ks[i + 1], b);
    RoundsAppend(f, ks[..i], ks[i], b);
  }

  /** The eight passes of the inner loop: two rounds each, with no swap between them. */
  method EightPairs(t: SBoxes, ks: seq<Word>, b: Block) returns (c: Block)
    requires |ks| == 16
    ensures c == Rounds(TableCipher(t), ks, b)
  {
    ghost var f := TableCipher(t);
    var l, r := b.l, b.r;
    var k := 0;
    var i := 8;
    while i > 0
      invariant 0 <= i <= 8 && k == 16 - 2 * i
      invariant Block(l, r) == Rounds(f, ks[..k], b)
    {
      TwoRounds(f, ks, k, b);
      l := Mix(t, Xor(ks[k], r), l);
      r := Mix(t, Xor(ks[k + 1], l), r);
      i, k := i - 1, k + 2;
    }
    assert ks[..16] == ks;
    c := Block(l, r);
  }

  method Core64(itr: nat, t: SBoxes, ks: seq<Word>, a: Block) returns (b: Block)
    requires |ks| == 16
    ensures b == Iterate(TableCipher(t), ks, itr, a)
  {
    ghost var f := TableCipher(t);
    b := a;
    var n := itr;
    ghost var done: nat := 0;
    while n > 0
      invariant 0 <= n && done + n == itr
      invariant b == Iterate(f, ks, done, a)
    {
      b := EightPairs(t, ks, b);
      b := Block(b.r, b.l);
      n, done := n - 1, done + 1;
    }
    assert done == itr;
  }

  method Doit64(itr: nat, t: SBoxes, ks: seq<Word>, res: array<Half>)
    requires |ks| == 16 && res.Length == 4
    modifies res
    ensures res[..] == Unpack(Iterate(TableCipher(t), ks, itr, Pack(old(res[..]))))
  {
    var b := Core64(itr, t, ks, Block(Join(res[0], res[1]), Join(res[2], res[3])));
    res[0], res[1], res[2], res[3] := b.l[32..], b.l[..32], b.r[32..], b.r[..32];
    assert res[..] == Unpack(b);
  }

  /** `((long64) hi << 32) | lo`. */
  function Join(hi: Half, lo: Half): Word { lo + hi }

  /** The block that the four-word argument and result vector stands for. */
  function Pack(res: seq<Half>): Block
    requires |res| == 4
  {
    Block(Join(res[0], res[1]), Join(res[2], res[3]))
  }

  function Unpack(b: Block): (res: seq<Half>)
    ensures |res| == 4 && Pack(res) == b
  {
    [b.l[32..], b.l[..32], b.r[32..], b.r[..32]]
  }

  lemma UnpackPack(l1: Half, l2: Half, r1: Half, r2: Half)
    ensures Unpack(Pack([l1, l2, r1, r2])) == [l1, l2, r1, r2]
  {
    assert Join(l1, l2)[32..] == l1 && Join(l1, l2)[..32] == l2;
    assert Join(r1, r2)[32..] == r1 && Join(r1, r2)[..32] == r2;
  }

  // ----- The 32-bit code -----

  /** The same tables as the 32-bit code reads them: the words at byte offsets v and v + 4. */
  datatype Pair = Pair(at: Half, at4: Half)

  /** The locals l1, l2, r1, r2. */
  datatype Halves = Halves(l1: Half, l2: Half, r1: Half, r2: Half) {
    function Joined(): Block { Block(Join(l1, l2), Join(r1, r2)) }
  }

  datatype SBoxes32 = SBoxes32(sb01: Offset -> Pair, sb23: Offset -> Pair)

  /** The 64-bit tables and keys whose words are the high/low pairs of the 32-bit ones. */
  function JoinTable(t: Offset -> Pair): Offset -> Word {
    (v: Offset) => Join(t(v).at, t(v).at4)
  }

  function JoinTables(t: SBoxes32): SBoxes { SBoxes(JoinTable(t.sb01), JoinTable(t.sb23)) }

  function JoinKeys(ks: seq<Half>): (js: seq<Word>)
    requires |ks| % 2 == 0
    ensures |js| == |ks| / 2
  {
    seq(|ks| / 2, i requires 0 <= i < |ks| / 2 => Join(ks[2 * i], ks[2 * i + 1]))
  }

  lemma JoinXor(a: Half, b: Half, c: Half, d: Half)
    ensures Xor(Join(a, b), Join(c, d)) == Join(Xor(a, c), Xor(b, d))
  {}

  /** The 32-bit code applies the four words in another order. */
  lemma XorReorders(x: Half, a: Half, b: Half, c: Half, d: Half)
    ensures Xor(Xor(Xor(Xor(x, c), d), a), b) == Xor(x, Xor(Xor(Xor(a, b), c), d))
  {}

  /** One half step: both 32-bit selector words are applied to the pair (x1, x2). */
  method Mix32(t: SBoxes32, s1: Half, s2: Half, x1: Half, x2: Half) returns (z1: Half, z2: Half)
    ensures Join(z1, z2) == Xor(Join(x1, x2), Selected(JoinTables(t), Join(s1, s2)))
  {
    var a, b := t.sb01(s1[..16]), t.sb01(s1[16..]);
    var c, d := t.sb23(s2[..16]), t.sb23(s2[16..]);
    z1 := Xor(Xor(Xor(Xor(x1, a.at), b.at), c.at), d.at);
    z2 := Xor(Xor(Xor(Xor(x2, a.at4), b.at4), c.at4), d.at4);
    SelectedJoined(t, s1, s2);
    XorReorders(x1, c.at, d.at, a.at, b.at);
    XorReorders(x2, c.at4, d.at4, a.at4, b.at4);
    JoinXor(x1, x2, Xor(Xor(Xor(c.at, d.at), a.at), b.at), Xor(Xor(Xor(c.at4, d.at4), a.at4), b.at4));
  }

  lemma SelectedJoined(t: SBoxes32, s1: Half, s2: Half)
    ensures var a, b, c, d := t.sb01(s1[..16]), t.sb01(s1[16..]), t.sb23(s2[..16]), t.sb23(s2[16..]);
            Selected(JoinTables(t), Join(s1, s2)) ==
            Join(Xor(Xor(Xor(c.at, d.at), a.at), b.at), Xor(Xor(Xor(c.at4, d.at4), a.at4), b.at4))
  {
    var s := Join(s1, s2);
    assert s[..16] == s2[..16] && s[16..32] == s2[16..] && s[32..48] == s1[..16] && s[48..] == s1[16..];
    var a, b, c, d := t.sb01(s1[..16]), t.sb01(s1[16..]), t.sb23(s2[..16]), t.sb23(s2[16..]);
    JoinXor(c.at, c.at4, d.at, d.at4);
    JoinXor(Xor(c.at, d.at), Xor(c.at4, d.at4), a.at, a.at4);
    JoinXor(Xor(Xor(c.at, d.at), a.at), Xor(Xor(c.at4, d.at4), a.at4), b.at, b.at4);
  }

  method HalfStep32(t: SBoxes32, k1: Half, k2: Half, y1: Half, y2: Half, x1: Half, x2: Half)
    returns (z1: Half, z2: Half)
    ensures Join(z1, z2) == Xor(Join(x1, x2), TableCipher(JoinTables(t))(Join(y1, y2), Join(k1, k2)))
  {
    JoinXor(k1, k2, y1, y2);
    z1, z2 := Mix32(t, Xor(k1, y1), Xor(k2, y2), x1, x2);
  }

  /** One pass of the inner loop: two rounds. */
  method Pair32(t: SBoxes32, k0: Half, k1: Half, k2: Half, k3: Half, a: Halves,
                ghost f: CipherFunction, ghost first: Word, ghost second: Word)
    returns (b: Halves)
    requires f == TableCipher(JoinTables(t)) && first == Join(k0, k1) && second == Join(k2, k3)
    ensures b.Joined() == Round(f, second, Round(f, first, a.Joined()))
  {
    var l1, l2 := HalfStep32(t, k0, k1, a.r1, a.r2, a.l1, a.l2);
    var r1, r2 := HalfStep32(t, k2, k3, l1, l2, a.r1, a.r2);
    b := Halves(l1, l2, r1, r2);
  }

  lemma JoinedAt(ks: seq<Half>, js: seq<Word>, j: nat)
    requires |ks| == 32 && js == JoinKeys(ks) && j < 16
    ensures |js| == 16 && js[j] == Join(ks[2 * j], ks[2 * j + 1])
  {}

  method EightPairs32(t: SBoxes32, ks: seq<Half>, a: Halves, ghost f: CipherFunction, ghost js: seq<Word>)
    returns (b: Halves)
    requires |ks| == 32 && f == TableCipher(JoinTables(t)) && js == JoinKeys(ks)
    ensures b.Joined() == Rounds(f, js, a.Joined())
  {
    ghost var start := a.Joined();
    b := a;
    var k := 0;
    var i := 8;
    ghost var j := 0;
    while i > 0
      invariant 0 <= i <= 8 && k == 2 * j && j == 16 - 2 * i
      invariant b.Joined() == Rounds(f, js[..j], start)
    {
      TwoRounds(f, js, j, start);
      JoinedAt(ks, js, j);
      JoinedAt(ks, js, j + 1);
      b := Pair32(t, ks[k], ks[k + 1], ks[k + 2], ks[k + 3], b, f, js[j], js[j + 1]);
      i, k, j := i - 1, k + 4, j + 2;
    }
    assert js[..16] == js;
  }

  /** One iteration: sixteen rounds and the exchange of the two halves. */
  method Pass32(t: SBoxes32, ks: seq<Half>, a: Halves, ghost f: CipherFunction, ghost js: seq<Word>)
    returns (b: Halves)
    requires |ks| == 32 && f == TableCipher(JoinTables(t)) && js == JoinKeys(ks)
    ensures b.Joined() == Encipher(f, js, a.Joined())
  {
    b := EightPairs32(t, ks, a, f, js);
    b := Halves(b.r1, b.r2, b.l1, b.l2);
  }

  method Core32(itr: nat, t: SBoxes32, ks: seq<Half>, a: Halves, ghost f: CipherFunction, ghost js: seq<Word>)
    returns (b: Halves)
    requires |ks| == 32 && f == TableCipher(JoinTables(t)) && js == JoinKeys(ks)
    ensures b.Joined() == Iterate(f, js, itr, a.Joined())
  {
    b := a;
    var n := itr;
    ghost var done: nat := 0;
    while n > 0
      invariant 0 <= n && done + n == itr
      invariant b.Joined() == Iterate(f, js, done, a.Joined())
    {
      b := Pass32(t, ks, b, f, js);
      n, done := n - 1, done + 1;
    }
    assert done == itr;
  }

  /** The 32-bit code computes what the 64-bit code computes on the joined tables and keys. */
  method Doit32(itr: nat, t: SBoxes32, ks: seq<Half>, res: array<Half>)
    requires |ks| == 32 && res.Length == 4
    modifies res
    ensures res[..] == Unpack(Iterate(TableCipher(JoinTables(t)), JoinKeys(ks), itr, Pack(old(res[..]))))
  {
    var b := Core32(itr, t, ks, Halves(res[0], res[1], res[2], res[3]), TableCipher(JoinTables(t)), JoinKeys(ks));
    res[0], res[1], res[2], res[3] := b.l1, b.l2, b.r1, b.r2;
    UnpackPack(b.l1, b.l2, b.r1, b.r2);
    assert res[..] == [b.l1, b.l2, b.r1, b.r2];
  }

  // ----- Reversal of the key table when the operation changes -----

  lemma ReversedTwice<T>(s: seq<T>)
    ensures Reversed(Reversed(s)) == s
  {}

  /** Both orders of enciphering and deciphering with one schedule give the block back. */
  lemma EitherOrderRestores(f: CipherFunction, key: seq<Word>, b: Block)
    ensures Encipher(f, Reversed(key), Encipher(f, key, b)) == b
    ensures Encipher(f, key, Encipher(f, Reversed(key), b)) == b
  {
    DecipherEncipher(f, key, b);
    DecipherEncipher(f, Reversed(key), b);
    ReversedTwice(key);
  }

  class CryptData {
    const keysched: array<Word>
    const sboxes: SBoxes
    var direction: int
    /** The schedule as computed from the key, before any reversal. */
    ghost const key: seq<Word>

    ghost predicate Valid()
      reads this, keysched
    {
      && keysched.Length == 16
      && keysched[..] == ScheduleFor(direction)
    }

    ghost function ScheduleFor(edflag: int): seq<Word> {
      if edflag == 0 then key else Reversed(key)
    }

    constructor (keys: array<Word>, t: SBoxes)
      requires keys.Length == 16
      ensures Valid() && keysched == keys && sboxes == t && direction == 0 && key == keys[..]
    {
      keysched := keys;
      sboxes := t;
      direction := 0;
      key := keys[..];
    }

    /** Exchange the keys from both ends, once. */
    method ReverseKeyTable()
      requires keysched.Length == 16
      modifies keysched
      ensures keysched[..] == Reversed(old(keysched[..]))
    {
      var i := 0;
      while i < 8
        invariant 0 <= i <= 8
        invariant forall j | 0 <= j < i :: keysched[j] == old(keysched[15 - j]) && keysched[15 - j] == old(keysched[j])
        invariant forall j | i <= j < 16 - i :: keysched[j] == old(keysched[j])
      {
        var x := keysched[15 - i];
        keysched[15 - i] := keysched[i];
        keysched[i] := x;
        i := i + 1;
      }
    }

    /** The core of `__encrypt_r`: whatever the previous operation was, the block is
        processed with the schedule that `edflag` asks for. */
    method Crypt(edflag: int, res: array<Half>)
      requires Valid() && res.Length == 4
      modifies this`direction, keysched, res
      ensures Valid() && (direction == 0 <==> edflag == 0)
      ensures res[..] == Unpack(Encipher(TableCipher(sboxes), ScheduleFor(edflag), Pack(old(res[..]))))
    {
      if (edflag == 0) != (direction == 0) {
        ReverseKeyTable();
        ReversedTwice(key);
        direction := edflag;
      }
      assert keysched[..] == ScheduleFor(edflag);
      ghost var ks, b := keysched[..], Pack(res[..]);
      Doit64(1, sboxes, keysched[..], res);
      IterateOnce(TableCipher(sboxes), ks, b);
    }
  }

  /** Exchange two words. */
  method ExchangeWords<T>(kt: array<T>, p: nat, q: nat)
    requires p < kt.Length && q < kt.Length
    modifies kt
    ensures kt[..] == old(kt[..])[q := old(kt[p])][p := old(kt[q])]
  {
    var x := kt[q];
    kt[q] := kt[p];
    kt[p] := x;
  }

  /** Word K comes from its own place or from the mirrored pair. */
  ghost predicate Exchanged<T>(s: seq<T>, start: seq<T>, i: nat) {
    && |s| == |start| == 32 && i <= 8
    && (forall k | 2 * i <= k < 32 - 2 * i :: s[k] == start[k])
    && (forall j | 0 <= j < i :: Mirrored(s, start, j))
    && (forall j | 16 - i <= j < 16 :: Mirrored(s, start, j))
  }

  /** Pair J of S is pair 15 - J of START. */
  ghost predicate Mirrored<T>(s: seq<T>, start: seq<T>, j: int)
    requires |s| == |start| == 32 && 0 <= j < 16
  {
    s[2 * j] == start[2 * (15 - j)] && s[2 * j + 1] == start[2 * (15 - j) + 1]
  }

  lemma ExchangedNext<T>(s: seq<T>, r: seq<T>, start: seq<T>, i: nat)
    requires Exchanged(s, start, i) && i < 8
    requires var p, q := 2 * i, 2 * (15 - i); r == s[q := s[p]][p := s[q]][q + 1 := s[p + 1]][p + 1 := s[q + 1]]
    ensures Exchanged(r, start, i + 1)
  {
    forall j | 0 <= j < i + 1
      ensures Mirrored(r, start, j)
    {
      assert j < i ==> Mirrored(s, start, j);
    }
    forall j | 16 - (i + 1) <= j < 16
      ensures Mirrored(r, start, j)
    {
      assert j > 15 - i ==> Mirrored(s, start, j);
    }
  }

  /** The same exchange in the 32-bit code, where every key is a pair of words: it reverses the
      joined schedule. */
  method ReverseKeyTable32(kt: array<Half>)
    requires kt.Length == 32
    modifies kt
    ensures JoinKeys(kt[..]) == Reversed(JoinKeys(old(kt[..])))
  {
    ghost var start := kt[..];
    ExchangePairs(kt, start);
    MirroredKeys(kt[..], start);
  }

  method ExchangePairs<T>(kt: array<T>, ghost start: seq<T>)
    requires kt.Length == 32 && start == kt[..]
    modifies kt
    ensures Exchanged(kt[..], start, 8)
  {
    var i := 0;
    while i < 8
      invariant 0 <= i <= 8 && Exchanged(kt[..], start, i)
    {
      ghost var s := kt[..];
      ExchangeWords(kt, 2 * i, 2 * (15 - i));
      ExchangeWords(kt, 2 * i + 1, 2 * (15 - i) + 1);
      ExchangedNext(s, kt[..], start, i);
      i := i + 1;
    }
  }

  lemma MirroredKeys(kt: seq<Half>, start: seq<Half>)
    requires Exchanged(kt, start, 8)
    ensures JoinKeys(kt) == Reversed(JoinKeys(start))
  {
    var js, ks := JoinKeys(kt), JoinKeys(start);
    forall j | 0 <= j < 16
      ensures js[j] == ks[15 - j]
    {
      MirroredAt(kt, start, js, ks, j);
    }
  }

  lemma MirroredAt(kt: seq<Half>, start: seq<Half>, js: seq<Word>, ks: seq<Word>, j: nat)
    requires Exchanged(kt, start, 8) && js == JoinKeys(kt) && ks == JoinKeys(start) && j < 16
    ensures |js| == |ks| == 16 && js[j] == ks[15 - j]
  {
    JoinedAt(kt, js, j);
    JoinedAt(start, ks, 15 - j);
    assert Mirrored(kt, start, j);
  }

  lemma IterateOnce(f: CipherFunction, ks: seq<Word>, b: Block)
    ensures Iterate(f, ks, 1, b) == Encipher(f, ks, b)
  {
    assert Iterate(f, ks, 0, b) == b;
  }
}
