/** The catalog file: `write_out` lays the table out in both byte orders, `__open_catalog`
    decodes and checks it on a machine of either order. */
module CatalogFile {
  import opened Wrappers
  import opened CatalogTable
  import opened CatalogIndex

  datatype Order = Little | Big {
    function Other(): Order { if Little? then Big else Little }
  }

  const MAGIC: u32 := 0x9604_08de
  const SWAPPED_MAGIC: u32 := 0xde08_0496

  // ----- Words and bytes -----

  function Digit(w: nat, i: nat): byte {
    if i == 0 then w % 256 else Digit(w / 256, i - 1)
  }

  function FromDigits(a: byte, b: byte, c: byte, d: byte): u32 {
    a + 256 * (b + 256 * (c + 256 * d))
  }

  lemma DigitsOfSum(a: byte, b: byte, c: byte, d: byte)
    ensures var w := FromDigits(a, b, c, d); Digit(w, 0) == a && Digit(w, 1) == b && Digit(w, 2) == c && Digit(w, 3) == d
  {
    var z := c + 256 * d;
    var y := b + 256 * z;
    var x := a + 256 * y;
    assert x % 256 == a && x / 256 == y;
    assert y % 256 == b && y / 256 == z;
    assert z % 256 == c && z / 256 == d;
    assert Digit(x, 1) == Digit(y, 0) && Digit(x, 2) == Digit(y, 1) && Digit(x, 3) == Digit(y, 2);
    assert Digit(y, 1) == Digit(z, 0) && Digit(y, 2) == Digit(z, 1);
    assert Digit(z, 1) == Digit(d, 0);
  }

  lemma SumOfDigits(w: u32)
    ensures FromDigits(Digit(w, 0), Digit(w, 1), Digit(w, 2), Digit(w, 3)) == w
  {
    var y := w / 256;
    var z := y / 256;
    var d := z / 256;
    assert w == w % 256 + 256 * y;
    assert y == y % 256 + 256 * z;
    assert z == z % 256 + 256 * d;
    assert d < 256;
    DigitAt(w);
    DigitAt(y);
    DigitAt(z);
  }

  lemma DigitAt(w: nat)
    ensures Digit(w, 0) == w % 256
    ensures Digit(w, 1) == Digit(w / 256, 0) && Digit(w, 2) == Digit(w / 256, 1) && Digit(w, 3) == Digit(w / 256, 2)
  {}

  lemma SwapMagic()
    ensures Swap(MAGIC) == SWAPPED_MAGIC
  {
    DigitsOfSum(0xde, 0x08, 0x04, 0x96);
  }

  /** The bytes of a 32-bit word in the memory of a machine of the given order. */
  function Bytes32(w: u32, o: Order): (b: seq<byte>)
    ensures |b| == 4
  {
    if o.Little? then [Digit(w, 0), Digit(w, 1), Digit(w, 2), Digit(w, 3)]
    else [Digit(w, 3), Digit(w, 2), Digit(w, 1), Digit(w, 0)]
  }

  function Word32(b: seq<byte>, o: Order): u32
    requires |b| == 4
  {
    if o.Little? then FromDigits(b[0], b[1], b[2], b[3]) else FromDigits(b[3], b[2], b[1], b[0])
  }

  /** SWAPU32: the four bytes in the opposite order. */
  function Swap(w: u32): u32 {
    FromDigits(Digit(w, 3), Digit(w, 2), Digit(w, 1), Digit(w, 0))
  }

  lemma WordOfBytes(w: u32, o: Order)
    ensures Word32(Bytes32(w, o), o) == w
    ensures Word32(Bytes32(w, o), o.Other()) == Swap(w)
  {
    SumOfDigits(w);
  }

  lemma SwapTwice(w: u32)
    ensures Swap(Swap(w)) == w
  {
    DigitsOfSum(Digit(w, 3), Digit(w, 2), Digit(w, 1), Digit(w, 0));
    SumOfDigits(w);
  }

  lemma SwappedBytes(w: u32, o: Order)
    ensures Bytes32(Swap(w), o) == Bytes32(w, o.Other())
  {
    DigitsOfSum(Digit(w, 3), Digit(w, 2), Digit(w, 1), Digit(w, 0));
  }

  type Bytes4 = b: seq<byte> | |b| == 4 witness [0, 0, 0, 0]

  function EncodeAll(t: seq<u32>, enc: u32 -> Bytes4): (b: seq<byte>)
    ensures |b| == 4 * |t|
  {
    if t == [] then [] else EncodeAll(t[..|t| - 1], enc) + enc(t[|t| - 1])
  }

  function DecodeAll(b: seq<byte>, dec: Bytes4 -> u32): (t: seq<u32>)
    requires |b| % 4 == 0
    ensures |t| == |b| / 4
  {
    if b == [] then [] else DecodeAll(b[..|b| - 4], dec) + [dec(b[|b| - 4..])]
  }

  lemma DecodeNext(b: seq<byte>, x: Bytes4, dec: Bytes4 -> u32)
    requires |b| % 4 == 0
    ensures DecodeAll(b + x, dec) == DecodeAll(b, dec) + [dec(x)]
  {
    var c := b + x;
    assert c[..|c| - 4] == b && c[|c| - 4..] == x;
  }

  lemma {:induction false} DecodeEncode(t: seq<u32>, enc: u32 -> Bytes4, dec: Bytes4 -> u32)
    requires forall w :: dec(enc(w)) == w
    ensures DecodeAll(EncodeAll(t, enc), dec) == t
  {
    if t != [] {
      var n := |t| - 1;
      DecodeEncode(t[..n], enc, dec);
      DecodeNext(EncodeAll(t[..n], enc), enc(t[n]), dec);
    }
  }

  /** Mapping the words first is the same as encoding them differently. */
  lemma {:induction false} EncodeMapped(t: seq<u32>, s: seq<u32>, enc: u32 -> Bytes4, enc': u32 -> Bytes4)
    requires |s| == |t| && forall i | 0 <= i < |t| :: enc(s[i]) == enc'(t[i])
    ensures EncodeAll(s, enc) == EncodeAll(t, enc')
  {
    if t != [] {
      var n := |t| - 1;
      EncodeMapped(t[..n], s[..n], enc, enc');
    }
  }

  function TableBytes(t: seq<u32>, o: Order): (b: seq<byte>)
    ensures |b| == 4 * |t|
  {
    EncodeAll(t, w => Bytes32(w, o))
  }

  function TableWords(b: seq<byte>, o: Order): (t: seq<u32>)
    requires |b| % 4 == 0
    ensures |t| == |b| / 4
  {
    DecodeAll(b, (x: Bytes4) => Word32(x, o))
  }

  lemma TableWordsOfBytes(t: seq<u32>, o: Order)
    ensures TableWords(TableBytes(t, o), o) == t
  {
    forall w: u32
      ensures Word32(Bytes32(w, o), o) == w
    {
      WordOfBytes(w, o);
    }
    DecodeEncode(t, w => Bytes32(w, o), (x: Bytes4) => Word32(x, o));
  }

  lemma SwappedTableBytes(t: seq<u32>, s: seq<u32>, o: Order)
    requires |s| == |t| && forall i | 0 <= i < |t| :: s[i] == Swap(t[i])
    ensures TableBytes(s, o) == TableBytes(t, o.Other())
  {
    forall i | 0 <= i < |t|
      ensures Bytes32(s[i], o) == Bytes32(t[i], o.Other())
    {
      SwappedBytes(t[i], o);
    }
    EncodeMapped(t, s, w => Bytes32(w, o), w => Bytes32(w, o.Other()));
  }

  // ----- Writing -----

  /** The file written by a machine of order O. */
  function FileBytes(size: u32, depth: u32, t: seq<u32>, strings: seq<byte>, o: Order): seq<byte> {
    Header(size, depth, o) + TableBytes(t, Little) + TableBytes(t, Big) + strings
  }

  function Header(size: u32, depth: u32, o: Order): (b: seq<byte>)
    ensures |b| == 12
  {
    Bytes32(MAGIC, o) + Bytes32(size, o) + Bytes32(depth, o)
  }

  /** The layout part of `write_out`: the little-endian table always comes first. */
  method Layout(size: u32, depth: u32, native: array<u32>, strings: seq<byte>, o: Order) returns (file: seq<byte>)
    ensures file == FileBytes(size, depth, native[..], strings, o)
  {
    var swapped := new u32[native.Length];
    var cnt := 0;
    while cnt < native.Length
      invariant 0 <= cnt <= native.Length
      invariant forall i | 0 <= i < cnt :: swapped[i] == Swap(native[i])
    {
      swapped[cnt] := Swap(native[cnt]);
      cnt := cnt + 1;
    }
    ghost var t := native[..];
    SwappedTableBytes(t, swapped[..], o);
    file := Header(size, depth, o);
    if o.Little? {
      file := file + TableBytes(native[..], o) + TableBytes(swapped[..], o);
    } else {
      file := file + TableBytes(swapped[..], o) + TableBytes(native[..], o);
    }
    file := file + strings;
  }

  // ----- Opening -----

  /** `Invalid`: the file is rejected.  `PastEnd`: the code reads beyond the end of the file. */
  datatype Outcome = Invalid | PastEnd | Opened(info: Info)

  function MaxOffset(t: seq<u32>, i: nat): nat
    requires 3 * i <= |t|
  {
    if i == 0 then 0 else Max(MaxOffset(t, i - 1), t[3 * i - 1])
  }

  datatype Scan = Terminated | Exhausted | RanOff

  /** The walk to the end of the last string, with its countdown. */
  function ScanString(file: seq<byte>, at: nat, count: nat): Scan
    decreases |file| - at
  {
    if at >= |file| then RanOff
    else if file[at] == 0 then Terminated
    else if count <= 1 then Exhausted
    else ScanString(file, at + 1, count - 1)
  }

  function Swapped(w: u32, swapping: bool): u32 { if swapping then Swap(w) else w }

  /** Where the table for the local byte order starts; N is the number of cell groups. */
  function TableAt(o: Order, n: nat): nat { if o.Little? then 12 else 12 + 12 * n }

  function TableOf(file: seq<byte>, o: Order, n: nat): (t: seq<u32>)
    requires TableAt(o, n) + 12 * n <= |file|
    ensures |t| == 3 * n
  {
    TableWords(file[TableAt(o, n)..TableAt(o, n) + 12 * n], o)
  }

  /** The checks after the dimensions are known. */
  function CheckTables(file: seq<byte>, o: Order, size: nat, depth: nat, n: nat): Outcome
    requires |file| >= 12
  {
    if TableAt(o, n) + 12 * n > |file| then PastEnd
    else
      var t := TableOf(file, o, n);
      CheckStrings(file, size, depth, n, t, MaxOffset(t, n))
  }

  function CheckStrings(file: seq<byte>, size: nat, depth: nat, n: nat, t: seq<u32>, max: nat): Outcome
    requires |file| >= 12
  {
    if |file| <= 12 + 6 * n + max then Invalid
    else
      match ScanString(file, 12 + 24 * n + max, |file| - 12 + 6 * n + max)
      case Terminated => Opened(Info(size, depth, t, DropTo(file, 12 + 24 * n)))
      case Exhausted => Invalid
      case RanOff => PastEnd
  }

  function DropTo(file: seq<byte>, at: nat): seq<byte> { if at <= |file| then file[at..] else [] }

  /** Whether the header has to be swapped, if the magic number is right. */
  function ReadMagic(file: seq<byte>, o: Order): Option<bool>
    requires |file| >= 12
  {
    var magic := Word32(file[..4], o);
    if magic == MAGIC then Some(false) else if magic == SWAPPED_MAGIC then Some(true) else None
  }

  function ReadSize(file: seq<byte>, o: Order, swapping: bool): u32
    requires |file| >= 12
  {
    Swapped(Word32(file[4..8], o), swapping)
  }

  function ReadDepth(file: seq<byte>, o: Order, swapping: bool): u32
    requires |file| >= 12
  {
    Swapped(Word32(file[8..12], o), swapping)
  }

  function Open(file: seq<byte>, o: Order): Outcome {
    if |file| < 12 then Invalid
    else
      match ReadMagic(file, o)
      case None => Invalid
      case Some(swapping) =>
        var size, depth := ReadSize(file, o, swapping), ReadDepth(file, o, swapping);
        CheckTables(file, o, size, depth, Cells(size, depth))
  }

  /** `__open_catalog` from the magic number to the terminator check. */
  method OpenCatalog(file: seq<byte>, o: Order) returns (r: Outcome)
    ensures r == Open(file, o)
  {
    if |file| < 12 {
      return Invalid;
    }
    var magic := ReadMagic(file, o);
    if magic.None? {
      return Invalid;
    }
    var size, depth := ReadSize(file, o, magic.value), ReadDepth(file, o, magic.value);
    r := CheckLoaded(file, o, size, depth, Cells(size, depth));
  }

  method LargestOffset(t: seq<u32>, n: nat) returns (maxOffset: nat)
    requires |t| == 3 * n
    ensures maxOffset == MaxOffset(t, n)
  {
    maxOffset := 0;
    var cnt := 2;
    ghost var i := 0;
    while cnt < 3 * n
      invariant 0 <= i <= n && cnt == 3 * i + 2 && maxOffset == MaxOffset(t, i)
    {
      if t[cnt] > maxOffset {
        maxOffset := t[cnt];
      }
      cnt, i := cnt + 3, i + 1;
    }
  }

  method WalkLastString(file: seq<byte>, at: nat, count: nat) returns (r: Scan)
    requires count > 0
    ensures r == ScanString(file, at, count)
  {
    var lastp, left := at, count;
    while true
      invariant left > 0 && lastp >= 0
      invariant ScanString(file, lastp, left) == ScanString(file, at, count)
      decreases |file| - lastp
    {
      if lastp >= |file| {
        return RanOff;
      }
      if file[lastp] == 0 {
        return Terminated;
      }
      left := left - 1;
      if left == 0 {
        return Exhausted;
      }
      lastp := lastp + 1;
    }
  }

  method CheckLoaded(file: seq<byte>, o: Order, size: nat, depth: nat, n: nat) returns (r: Outcome)
    requires |file| >= 12
    ensures r == CheckTables(file, o, size, depth, n)
  {
    if TableAt(o, n) + 12 * n > |file| {
      return PastEnd;
    }
    var t := TableOf(file, o, n);
    var maxOffset := LargestOffset(t, n);
    r := CheckLastString(file, size, depth, n, t, maxOffset);
  }

  method CheckLastString(file: seq<byte>, size: nat, depth: nat, n: nat, t: seq<u32>, maxOffset: nat) returns (r: Outcome)
    requires |file| >= 12
    ensures r == CheckStrings(file, size, depth, n, t, maxOffset)
  {
    if |file| <= 12 + 6 * n + maxOffset {
      return Invalid;
    }
    var scan := WalkLastString(file, 12 + 24 * n + maxOffset, |file| - 12 + 6 * n + maxOffset);
    match scan
    case Terminated => r := Opened(Info(size, depth, t, DropTo(file, 12 + 24 * n)));
    case Exhausted => r := Invalid;
    case RanOff => r := PastEnd;
  }

  // ----- What the checks amount to -----

  ghost predicate NulFrom(file: seq<byte>, at: nat) { exists z | at <= z < |file| :: file[z] == 0 }

  /** With a countdown at least as long as the rest of the file, the walk stops at a NUL
      or leaves the file. */
  lemma {:induction false} LongCountdown(file: seq<byte>, at: nat, count: nat)
    requires count >= |file| - at
    ensures ScanString(file, at, count) == Terminated <==> NulFrom(file, at)
    ensures ScanString(file, at, count) == Exhausted <==> !NulFrom(file, at) && at < |file| && count == |file| - at
    decreases |file| - at
  {
    if at < |file| && file[at] != 0 {
      assert NulFrom(file, at) <==> NulFrom(file, at + 1);
      if count > 1 {
        LongCountdown(file, at + 1, count - 1);
      }
    }
  }

  /** Exactly when a file is accepted.  The countdown of the terminator check starts too high to
      reject anything but a file without a table: otherwise the walk runs off the file. */
  lemma AcceptedExactlyWhen(file: seq<byte>, size: nat, depth: nat, n: nat, t: seq<u32>, max: nat)
    requires |file| >= 12
    ensures var r := CheckStrings(file, size, depth, n, t, max);
            && (r.Opened? <==> |file| > 12 + 6 * n + max && NulFrom(file, 12 + 24 * n + max))
            && (r.Invalid? <==> |file| <= 12 + 6 * n + max || (n == max == 0 && !NulFrom(file, 12)))
  {
    if |file| > 12 + 6 * n + max {
      LongCountdown(file, 12 + 24 * n + max, |file| - 12 + 6 * n + max);
    }
  }

  // ----- Written files -----

  lemma HeaderParts(size: u32, depth: u32, o: Order, rest: seq<byte>)
    ensures var file := Header(size, depth, o) + rest;
            file[..4] == Bytes32(MAGIC, o) && file[4..8] == Bytes32(size, o) && file[8..12] == Bytes32(depth, o)
  {}

  /** Header words survive whatever the two byte orders are. */
  lemma HeaderRead(size: u32, depth: u32, w: Order, rest: seq<byte>, r: Order)
    ensures var file := Header(size, depth, w) + rest;
            ReadMagic(file, r) == Some(w != r) && ReadSize(file, r, w != r) == size && ReadDepth(file, r, w != r) == depth
  {
    HeaderParts(size, depth, w, rest);
    WordOfBytes(MAGIC, w);
    WordOfBytes(size, w);
    WordOfBytes(depth, w);
    SwapTwice(size);
    SwapTwice(depth);
    SwapMagic();
  }

  lemma FileParts(size: u32, depth: u32, t: seq<u32>, strings: seq<byte>, w: Order, n: nat)
    requires |t| == 3 * n
    ensures var file := FileBytes(size, depth, t, strings, w);
            && |file| == 12 + 24 * n + |strings|
            && file[12..12 + 12 * n] == TableBytes(t, Little)
            && file[12 + 12 * n..12 + 24 * n] == TableBytes(t, Big)
            && file[12 + 24 * n..] == strings
  {
    var h, l, b := Header(size, depth, w), TableBytes(t, Little), TableBytes(t, Big);
    assert |h| == 12 && |l| == 12 * n && |b| == 12 * n;
  }

  lemma {:induction false} MaxOffsetBelow(t: seq<u32>, i: nat, bound: nat)
    requires 3 * i <= |t| && forall j: nat | j < i :: t[3 * j + 2] <= bound
    ensures MaxOffset(t, i) <= bound
  {
    if i > 0 {
      assert t[3 * (i - 1) + 2] == t[3 * i - 1];
      MaxOffsetBelow(t, i - 1, bound);
    }
  }

  lemma SlotOf(i: nat, size: nat, depth: nat)
    requires size > 0 && i < size * depth
    ensures i % size < size && i / size < depth && Slot(i % size, i / size, size) == i
  {
    var k, h := i / size, i % size;
    assert i == k * size + h;
    if k >= depth {
      Times(depth, k, size);
    }
  }

  lemma CellInPool(t: seq<u32>, es: seq<Entry>, f: Hasher, size: nat, h: nat, k: nat, j: nat)
    requires CellOk(t, es, f, size, h, k) && Slot(h, k, size) == j
    requires forall i | 0 <= i < |es| :: 0 !in es[i].text
    ensures t[3 * j + 2] == 0 || t[3 * j + 2] < |Pool(es)|
  {
    if k < |Bucket(es, f, h)| {
      PooledString(es, Bucket(es, f, h)[k]);
    }
  }

  lemma OffsetInPool(t: seq<u32>, es: seq<Entry>, f: Hasher, size: nat, depth: nat, j: nat)
    requires size > 0 && Indexed(t, es, f, size, depth) && j < size * depth
    requires forall i | 0 <= i < |es| :: 0 !in es[i].text
    ensures t[3 * j + 2] == 0 || t[3 * j + 2] < |Pool(es)|
  {
    SlotOf(j, size, depth);
    var h, k := j % size, j / size;
    CellInPool(t, es, f, size, h, k, j);
  }

  /** Every offset in a filled table points into the string pool. */
  lemma OffsetsInPool(t: seq<u32>, es: seq<Entry>, f: Hasher, size: nat, depth: nat)
    requires size > 0 && Indexed(t, es, f, size, depth)
    requires forall i | 0 <= i < |es| :: 0 !in es[i].text
    ensures MaxOffset(t, Cells(size, depth)) == 0 || MaxOffset(t, Cells(size, depth)) < |Pool(es)|
  {
    var bound := if |Pool(es)| == 0 then 0 else |Pool(es)| - 1;
    forall j: nat | j < size * depth
      ensures t[3 * j + 2] <= bound
    {
      OffsetInPool(t, es, f, size, depth, j);
    }
    MaxOffsetBelow(t, size * depth, bound);
  }

  lemma PoolEndsInNul(es: seq<Entry>)
    requires es != []
    ensures Pool(es) != [] && Pool(es)[|Pool(es)| - 1] == 0
  {}

  lemma WrittenStringsPass(file: seq<byte>, size: nat, depth: nat, n: nat, t: seq<u32>, max: nat, es: seq<Entry>)
    requires |file| == 12 + 24 * n + |Pool(es)| && file[12 + 24 * n..] == Pool(es) && n > 0
    requires max == 0 || max < |Pool(es)|
    ensures CheckStrings(file, size, depth, n, t, max) ==
            if es == [] then PastEnd else Opened(Info(size, depth, t, Pool(es)))
  {
    AcceptedExactlyWhen(file, size, depth, n, t, max);
    if es != [] {
      PoolEndsInNul(es);
      assert file[12 + 24 * n..][|Pool(es)| - 1] == file[|file| - 1];
    }
  }

  lemma WrittenSlice(file: seq<byte>, t: seq<u32>, n: nat, r: Order)
    requires 12 + 24 * n <= |file|
    requires file[12..12 + 12 * n] == TableBytes(t, Little) && file[12 + 12 * n..12 + 24 * n] == TableBytes(t, Big)
    ensures TableAt(r, n) + 12 * n <= |file| && file[TableAt(r, n)..TableAt(r, n) + 12 * n] == TableBytes(t, r)
  {}

  lemma WrittenTable(file: seq<byte>, t: seq<u32>, n: nat, r: Order)
    requires |t| == 3 * n && TableAt(r, n) + 12 * n <= |file|
    requires file[TableAt(r, n)..TableAt(r, n) + 12 * n] == TableBytes(t, r)
    ensures TableOf(file, r, n) == t
  {
    TableWordsOfBytes(t, r);
  }

  lemma WrittenHeader(size: u32, depth: u32, t: seq<u32>, strings: seq<byte>, w: Order, r: Order)
    ensures var file := FileBytes(size, depth, t, strings, w);
            |file| >= 12 && Open(file, r) == CheckTables(file, r, size, depth, Cells(size, depth))
  {
    var rest := TableBytes(t, Little) + TableBytes(t, Big) + strings;
    assert FileBytes(size, depth, t, strings, w) == Header(size, depth, w) + rest;
    HeaderOpens(size, depth, w, rest, r, FileBytes(size, depth, t, strings, w));
  }

  lemma HeaderOpens(size: u32, depth: u32, w: Order, rest: seq<byte>, r: Order, file: seq<byte>)
    requires file == Header(size, depth, w) + rest
    ensures |file| >= 12 && Open(file, r) == CheckTables(file, r, size, depth, Cells(size, depth))
  {
    HeaderRead(size, depth, w, rest, r);
  }

  /** Whatever the byte orders of writer and reader: a catalog with at least one message is
      accepted with the dimensions, table and strings the writer held; the reader runs off the
      end of a catalog without messages. */
  lemma WrittenFileOpens(size: u32, depth: u32, t: seq<u32>, es: seq<Entry>, f: Hasher, w: Order, r: Order)
    requires size > 0 && depth > 0 && Indexed(t, es, f, size, depth) && forall i | 0 <= i < |es| :: 0 !in es[i].text
    ensures Open(FileBytes(size, depth, t, Pool(es), w), r) ==
            if es == [] then PastEnd else Opened(Info(size, depth, t, Pool(es)))
  {
    var n, file := Cells(size, depth), FileBytes(size, depth, t, Pool(es), w);
    Times(1, depth, size);
    WrittenHeader(size, depth, t, Pool(es), w, r);
    FileParts(size, depth, t, Pool(es), w, n);
    WrittenSlice(file, t, n, r);
    WrittenTable(file, t, n, r);
    OffsetsInPool(t, es, f, size, depth);
    WrittenStringsPass(file, size, depth, n, t, MaxOffset(t, n), es);
  }

  // ----- The whole of write_out, without the merge of an old catalog -----

  lemma OptimalFits(es: seq<Entry>, start: nat, size: nat, depth: nat)
    requires Optimal(es, start, size, depth) && Usable(es, start)
    ensures size <= UINT_MAX && depth <= UINT_MAX
  {
    var s: nat :| start <= s < UINT_MAX && Cost(es, s) <= UINT_MAX;
    assert Cost(es, size) <= Cost(es, s);
    CostAtLeastSize(es, size);
    Times(1, size, depth);
  }

  /** A catalog with distinct keys, written on a machine of one order and read on a machine of
      either order, answers every request as the plain map does. */
  method WriteOut(sets: seq<MessageSet>, totalMessages: nat, o: Order) returns (file: seq<byte>)
    requires AllStorable(Flat(sets)) && DistinctKeys(Flat(sets)) && Usable(Flat(sets), StartSize(totalMessages))
    ensures forall r: Order :: if Flat(sets) == [] then Open(file, r) == PastEnd
                               else Open(file, r).Opened? && Serves(Open(file, r).info, Flat(sets))
    ensures forall r: Order :: Open(file, r).Opened? ==>
              Open(file, r).info.size > 0 && Written(Open(file, r).info, Flat(sets), HashAt(Open(file, r).info.size))
  {
    ghost var es := Flat(sets);
    var size, depth := ChooseSize(sets, totalMessages);
    OptimalFits(es, StartSize(totalMessages), size, depth);
    var table, strings := Fill(sets, size, depth);
    file := Layout(size, depth, table, strings, o);
    ghost var info := Info(size, depth, table[..], strings);
    FilledTableServes(info, es);
    forall r: Order
      ensures Open(file, r) == if es == [] then PastEnd else Opened(info)
    {
      WrittenFileOpens(size, depth, table[..], es, HashAt(size), o, r);
    }
  }
}
