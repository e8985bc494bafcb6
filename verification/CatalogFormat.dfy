/** The catalog file byte by byte: which numbers `write_out` puts where, and exactly which files
    `__open_catalog` accepts.  Numbers are read off the bytes here without the encoder, the
    decoder or the scan for the largest offset. */
module CatalogFormat {
  import opened Wrappers
  import opened CatalogTable
  import opened CatalogIndex
  import opened CatalogFile

  /** The number that the four bytes from AT on spell. */
  function ValueAt(file: seq<byte>, at: nat, o: Order): nat
    requires at + 4 <= |file|
  {
    match o
    case Little => Value(file[at], file[at + 1], file[at + 2], file[at + 3])
    case Big => Value(file[at + 3], file[at + 2], file[at + 1], file[at])
  }

  /** From the lowest byte to the highest. */
  function Value(a: nat, b: nat, c: nat, d: nat): nat { a + 0x100 * b + 0x1_0000 * c + 0x100_0000 * d }

  /** A header in the byte order of the writer. */
  predicate Headed(file: seq<byte>, w: Order, size: nat, depth: nat) {
    |file| >= 12 && ValueAt(file, 0, w) == 0x9604_08de && ValueAt(file, 4, w) == size && ValueAt(file, 8, w) == depth
  }

  /** The words T are spelled one after the other from AT on. */
  ghost predicate Spelled(file: seq<byte>, at: nat, o: Order, t: seq<u32>) {
    at + 4 * |t| <= |file| && forall k: nat | k < |t| :: WordAt(file, at, o, k, t[k])
  }

  predicate WordAt(file: seq<byte>, at: nat, o: Order, k: nat, x: u32)
    requires at + 4 * (k + 1) <= |file|
  {
    ValueAt(file, at + 4 * k, o) == x
  }

  /** The string offset in cell group J of the table that starts at AT. */
  function OffsetAt(file: seq<byte>, at: nat, o: Order, j: nat): nat
    requires at + 12 * (j + 1) <= |file|
  {
    ValueAt(file, at + 12 * j + 8, o)
  }

  ghost predicate Largest(file: seq<byte>, at: nat, o: Order, n: nat, max: nat)
    requires at + 12 * n <= |file|
  {
    && (forall j: nat | j < n :: OffsetAt(file, at, o, j) <= max)
    && (max == 0 || exists j: nat | j < n :: OffsetAt(file, at, o, j) == max)
  }

  // ----- Words -----

  lemma WordIsValue(file: seq<byte>, at: nat, o: Order)
    requires at + 4 <= |file|
    ensures Word32(file[at..at + 4], o) == ValueAt(file, at, o)
  {}

  lemma SwapIsOther(b: Bytes4, o: Order)
    ensures Swap(Word32(b, o)) == Word32(b, o.Other())
  {
    if o.Little? {
      DigitsOfSum(b[0], b[1], b[2], b[3]);
    } else {
      DigitsOfSum(b[3], b[2], b[1], b[0]);
    }
  }

  /** A word that has to be swapped is spelled in the other order. */
  lemma SwappedIsValue(file: seq<byte>, at: nat, r: Order, swapping: bool)
    requires at + 4 <= |file|
    ensures Swapped(Word32(file[at..at + 4], r), swapping) == ValueAt(file, at, if swapping then r.Other() else r)
  {
    WordIsValue(file, at, r);
    WordIsValue(file, at, r.Other());
    SwapIsOther(file[at..at + 4], r);
  }

  lemma MagicSwaps(x: u32)
    ensures x == SWAPPED_MAGIC <==> Swap(x) == MAGIC
  {
    SwapMagic();
    SwapTwice(x);
    SwapTwice(MAGIC);
  }

  /** The magic number tells the order of the writer, whatever the order of the reader. */
  lemma MagicMeans(file: seq<byte>, r: Order)
    requires |file| >= 12
    ensures ReadMagic(file, r) == Some(false) <==> ValueAt(file, 0, r) == 0x9604_08de
    ensures ReadMagic(file, r) == Some(true) <==> ValueAt(file, 0, r.Other()) == 0x9604_08de
  {
    assert file[..4] == file[0..4];
    SwappedIsValue(file, 0, r, false);
    SwappedIsValue(file, 0, r, true);
    MagicSwaps(Word32(file[..4], r));
  }

  lemma {:induction false} DecodedAt(b: seq<byte>, o: Order, dec: Bytes4 -> u32, k: nat)
    requires |b| % 4 == 0 && 4 * k < |b| && forall x: Bytes4 :: dec(x) == Word32(x, o)
    ensures DecodeAll(b, dec)[k] == ValueAt(b, 4 * k, o)
  {
    var at := |b| - 4;
    assert DecodeAll(b, dec) == DecodeAll(b[..at], dec) + [dec(b[at..])];
    if 4 * k < at {
      DecodedAt(b[..at], o, dec, k);
      ValueInSlice(b, 0, at, 4 * k, o);
      assert b[0..at] == b[..at];
    } else {
      assert b[at..] == b[at..at + 4];
      WordIsValue(b, at, o);
    }
  }

  lemma TableSpelled(file: seq<byte>, at: nat, n: nat, o: Order)
    requires at + 12 * n <= |file|
    ensures Spelled(file, at, o, TableWords(file[at..at + 12 * n], o))
  {
    var b := file[at..at + 12 * n];
    forall k: nat | k < 3 * n
      ensures WordAt(file, at, o, k, TableWords(b, o)[k])
    {
      DecodedAt(b, o, (x: Bytes4) => Word32(x, o), k);
      ValueInSlice(file, at, at + 12 * n, 4 * k, o);
    }
  }

  lemma ValueInSlice(file: seq<byte>, at: nat, end: nat, i: nat, o: Order)
    requires at + i + 4 <= end <= |file|
    ensures ValueAt(file[at..end], i, o) == ValueAt(file, at + i, o)
  {}

  // ----- The scan for the largest offset -----

  /** It bounds every offset of the table and is one of them, unless it is 0. */
  lemma {:induction false} MaxOffsetIsLargest(t: seq<u32>, n: nat)
    requires 3 * n <= |t|
    ensures forall j: nat | j < n :: t[3 * j + 2] <= MaxOffset(t, n)
    ensures MaxOffset(t, n) == 0 || exists j: nat | j < n :: t[3 * j + 2] == MaxOffset(t, n)
  {
    if n > 0 {
      MaxOffsetIsLargest(t, n - 1);
      assert t[3 * (n - 1) + 2] == t[3 * n - 1];
    }
  }

  lemma LargestIsMaxOffset(file: seq<byte>, at: nat, o: Order, n: nat, t: seq<u32>)
    requires |t| == 3 * n && Spelled(file, at, o, t)
    ensures Largest(file, at, o, n, MaxOffset(t, n))
  {
    var max := MaxOffset(t, n);
    MaxOffsetIsLargest(t, n);
    forall j: nat | j < n
      ensures OffsetAt(file, at, o, j) <= max
    {
      OffsetSpelled(file, at, o, n, t, j);
    }
    if max != 0 {
      var j: nat :| j < n && t[3 * j + 2] == max;
      OffsetSpelled(file, at, o, n, t, j);
    }
  }

  lemma OffsetSpelled(file: seq<byte>, at: nat, o: Order, n: nat, t: seq<u32>, j: nat)
    requires |t| == 3 * n && Spelled(file, at, o, t) && j < n
    ensures OffsetAt(file, at, o, j) == t[3 * j + 2]
  {
    assert WordAt(file, at, o, 3 * j + 2, t[3 * j + 2]);
  }

  lemma OneLargest(file: seq<byte>, at: nat, o: Order, n: nat, a: nat, b: nat)
    requires at + 12 * n <= |file| && Largest(file, at, o, n, a) && Largest(file, at, o, n, b)
    ensures a == b
  {}

  /** What the reader finds in its table. */
  lemma TableRead(file: seq<byte>, r: Order, n: nat, at: nat, max: nat)
    requires at == TableAt(r, n) && at + 12 * n <= |file| && Largest(file, at, r, n, max)
    ensures Spelled(file, at, r, TableOf(file, r, n)) && MaxOffset(TableOf(file, r, n), n) == max
  {
    var t := TableOf(file, r, n);
    TableSpelled(file, at, n, r);
    LargestIsMaxOffset(file, at, r, n, t);
    OneLargest(file, at, r, n, max, MaxOffset(t, n));
  }

  // ----- Opening -----

  /** Without the magic number in one of the two orders nothing is opened. */
  lemma HeadlessIsInvalid(file: seq<byte>, r: Order)
    requires |file| < 12 || forall w: Order :: ValueAt(file, 0, w) != 0x9604_08de
    ensures Open(file, r) == Invalid
  {
    if |file| >= 12 {
      MagicMeans(file, r);
    }
  }

  lemma HeadedOpens(file: seq<byte>, w: Order, size: nat, depth: nat, r: Order)
    requires Headed(file, w, size, depth)
    ensures Open(file, r) == CheckTables(file, r, size, depth, Cells(size, depth))
  {
    MagicMeans(file, r);
    SwappedIsValue(file, 4, r, w != r);
    SwappedIsValue(file, 8, r, w != r);
    SwapMagic();
  }

  /** Where a reader of order R finds its table of N cell groups. */
  predicate Starts(at: nat, r: Order, n: nat) { at == if r.Little? then 12 else 12 + 12 * n }

  /** Exactly which files a reader of order R opens, rejects or runs off the end of: the header
      of the writer's order W decides the dimensions, the table of the reader's own order the
      largest offset. */
  lemma OpensExactlyWhen(file: seq<byte>, w: Order, size: nat, depth: nat, r: Order, n: nat, at: nat, max: nat)
    requires Headed(file, w, size, depth) && n == size * depth && Starts(at, r, n)
    requires at + 12 * n <= |file| ==> Largest(file, at, r, n, max)
    ensures at + 12 * n > |file| ==> Open(file, r) == PastEnd
    ensures at + 12 * n <= |file| ==> Decided(file, n, max, Open(file, r))
  {
    HeadedOpens(file, w, size, depth, r);
    if at + 12 * n <= |file| {
      TableRead(file, r, n, at, max);
      AcceptedExactlyWhen(file, size, depth, n, TableOf(file, r, n), max);
    }
  }

  /** What becomes of a file of N cell groups with the largest offset MAX. */
  ghost predicate Decided(file: seq<byte>, n: nat, max: nat, result: Outcome) {
    && (result.Opened? <==> |file| > 12 + 6 * n + max && NulFrom(file, 12 + 24 * n + max))
    && (result.Invalid? <==> |file| <= 12 + 6 * n + max || (n == max == 0 && !NulFrom(file, 12)))
  }

  /** What an opened catalog holds. */
  lemma OpenedHolds(file: seq<byte>, w: Order, size: nat, depth: nat, r: Order, n: nat, at: nat)
    requires Headed(file, w, size, depth) && n == size * depth && Starts(at, r, n) && Open(file, r).Opened?
    ensures Holds(file, size, depth, r, n, at, Open(file, r).info)
  {
    HeadedOpens(file, w, size, depth, r);
    TablesHold(file, size, depth, r, n, at, Open(file, r));
  }

  /** The dimensions of the header, the words of the reader's table, and the strings. */
  ghost predicate Holds(file: seq<byte>, size: nat, depth: nat, r: Order, n: nat, at: nat, c: Info) {
    && c.size == size && c.depth == depth && |c.table| == 3 * n && Spelled(file, at, r, c.table)
    && 12 + 24 * n <= |file| && c.strings == file[12 + 24 * n..]
  }

  lemma TablesHold(file: seq<byte>, size: nat, depth: nat, r: Order, n: nat, at: nat, result: Outcome)
    requires |file| >= 12 && Starts(at, r, n) && result == CheckTables(file, r, size, depth, n) && result.Opened?
    ensures Holds(file, size, depth, r, n, at, result.info)
  {
    var t := TableOf(file, r, n);
    StringsHold(file, size, depth, n, t, MaxOffset(t, n));
    TableSpelled(file, at, n, r);
  }

  lemma StringsHold(file: seq<byte>, size: nat, depth: nat, n: nat, t: seq<u32>, max: nat)
    requires |file| >= 12 && CheckStrings(file, size, depth, n, t, max).Opened?
    ensures 12 + 24 * n <= |file|
    ensures CheckStrings(file, size, depth, n, t, max).info == Info(size, depth, t, file[12 + 24 * n..])
  {
    AcceptedExactlyWhen(file, size, depth, n, t, max);
  }

  /** One offset that reaches past the end of the file is enough to reject it. */
  lemma FarOffsetIsInvalid(file: seq<byte>, w: Order, size: nat, depth: nat, r: Order, n: nat, at: nat, j: nat)
    requires Headed(file, w, size, depth) && n == size * depth && Starts(at, r, n)
    requires at + 12 * n <= |file| && j < n && |file| <= 12 + 6 * n + OffsetAt(file, at, r, j)
    ensures Open(file, r) == Invalid
  {
    var max := LargestOf(file, at, r, n);
    OpensExactlyWhen(file, w, size, depth, r, n, at, max);
  }

  lemma LargestOf(file: seq<byte>, at: nat, o: Order, n: nat) returns (max: nat)
    requires at + 12 * n <= |file|
    ensures Largest(file, at, o, n, max)
  {
    var t := TableWords(file[at..at + 12 * n], o);
    TableSpelled(file, at, n, o);
    LargestIsMaxOffset(file, at, o, n, t);
    max := MaxOffset(t, n);
  }

  // ----- Writing -----

  lemma BytesSpelled(file: seq<byte>, at: nat, n: nat, o: Order, t: seq<u32>)
    requires at + 12 * n <= |file| && |t| == 3 * n && file[at..at + 12 * n] == TableBytes(t, o)
    ensures Spelled(file, at, o, t)
  {
    TableSpelled(file, at, n, o);
    TableWordsOfBytes(t, o);
  }

  lemma HeaderSpelled(size: u32, depth: u32, w: Order, rest: seq<byte>)
    ensures Headed(Header(size, depth, w) + rest, w, size, depth)
  {
    var file := Header(size, depth, w) + rest;
    HeaderRead(size, depth, w, rest, w);
    MagicMeans(file, w);
    SwappedIsValue(file, 4, w, false);
    SwappedIsValue(file, 8, w, false);
  }

  lemma FileHeaded(size: u32, depth: u32, t: seq<u32>, strings: seq<byte>, w: Order)
    ensures Headed(FileBytes(size, depth, t, strings, w), w, size, depth)
  {
    var rest := TableBytes(t, Little) + TableBytes(t, Big) + strings;
    assert FileBytes(size, depth, t, strings, w) == Header(size, depth, w) + rest;
    HeaderSpelled(size, depth, w, rest);
  }

  /** A written file: the header in the order of the writer, the table in little-endian and then
      in big-endian order, and the strings. */
  lemma WrittenSpells(size: u32, depth: u32, t: seq<u32>, strings: seq<byte>, w: Order, n: nat, file: seq<byte>)
    requires |t| == 3 * n && file == FileBytes(size, depth, t, strings, w)
    ensures |file| == 12 + 24 * n + |strings| && Headed(file, w, size, depth) && file[12 + 24 * n..] == strings
    ensures Spelled(file, 12, Little, t) && Spelled(file, 12 + 12 * n, Big, t)
  {
    FileHeaded(size, depth, t, strings, w);
    FileParts(size, depth, t, strings, w, n);
    TablesSpelled(file, n, t);
  }

  lemma TablesSpelled(file: seq<byte>, n: nat, t: seq<u32>)
    requires |t| == 3 * n && 12 + 24 * n <= |file|
    requires file[12..12 + 12 * n] == TableBytes(t, Little) && file[12 + 12 * n..12 + 24 * n] == TableBytes(t, Big)
    ensures Spelled(file, 12, Little, t) && Spelled(file, 12 + 12 * n, Big, t)
  {
    BytesSpelled(file, 12, n, Little, t);
    BytesSpelled(file, 12 + 12 * n, n, Big, t);
  }
}
