# Verified models of four glibc components

The project models, in Dafny, the parts of glibc 2.35 where an algorithm has to agree with a
simpler description of what it is for, and proves that it does.

* **Message catalogs** (`catgets`, `gencat`). `CatalogTable` is the search for the size of the
  hash table, `CatalogIndex` its filling and the look-up, `CatalogFile` the file layout in both
  byte orders and the checks of the reader, and `CatalogFormat` reads both off the bytes.
  `MessageLists`, `MessageNumbering` and `CatalogSets` are the lists of the compiler: numbering of
  messages, `find_set` and the merge of an old catalog; `NumberingLaws` says what remains of the
  lines, `CatalogMerge` reads a written table back. `NormalizeLine` rewrites a message text in its
  buffer, `LineTokens` is the escape language it understands.
* **Argp help and parsing.** `HelpOrder` is the order of help entries (with `Lexicographic`),
  `HelpOrderLaws` its rules one by one, `FirstUses`, `HelpLists` and `HelpTree` the packed string of
  short options over a tree of argps, `HelpPlaces` the groups, clusters and places of its options,
  `HelpListing` and `HelpShapes` the sorted help output of a tree and its clusters, `UsagePatterns`
  the counter over alternative usage lines and `UsageLaws` what these lines are. `OptionTables`,
  `ParserTables` and `PackedKeys` are the getopt tables of a tree, `GroupLaws` its groups,
  `OptionDispatch` the choice of a group for an option and `DispatchLaws` where that leads,
  `ShadowedOptions` the comparison of help output and parser. `ParserRuns` says what a run of
  `argp_parse` is, `ParserLifecycle` is the code that makes one, `ParserLives` and `TurnLaws` what
  follows for every run. `ArgpTypes` holds the declarations of argp.h, `TreePlaces` the places in a
  tree of them.
* **UFC-crypt's DES core**: `Feistel`.
* **The link namespace checker**: `LinkNamespace`.

`Wrappers` holds the one `Option` type and `Sequences` a law of sequences. A method is proved
against a function on values. The modules named for laws, places, formats and tokens then say what
these functions mean in terms of the declarations, lines and bytes alone. The main results:

1. A catalog with distinct keys, written on a machine of one byte order and opened on a machine
   of either, answers every `catgets` request as the map from (set, message) to string does
   (`CatalogFile.WriteOut`). The table size is optimal despite the early exit of the measuring
   loop, exactly when some admissible size stays below UINT_MAX (`CatalogTable.ChooseSize`). Which
   files are opened, rejected or read past their end is decided byte by byte
   (`CatalogFormat.OpensExactlyWhen`, `CatalogFormat.FarOffsetIsInvalid`).
2. Merging an old catalog is the override of its map by the new one, whatever the order of the
   slots; a new empty message deletes. Written on a machine of one byte order and merged on one of
   either, a catalog restores every answer (`CatalogMerge.MergeOutput`, `CatalogMerge.Reread`). A
   set built from lines holds exactly the first text of every number and symbol
   (`CatalogSets.SetList.AddLines`), and every line normalizes to the meaning of the tokens it
   consists of (`LineTokens.NormalizedMeans`).
3. `hol_entry_cmp` is the lexicographic order of a key, so it is transitive and antisymmetric
   across all depths, and sorted listings keep every cluster in one block exactly when sibling
   clusters differ in group or index (`HelpOrder.EntryCmpIsLex`, `HelpOrder.DistinctSiblingsDecide`).
   For the help output that `argp_hol` and `hol_sort` make of a tree, the shapes that keep every
   cluster together for all options are exactly the tidy ones (`HelpShapes.ShapesDecide`). Which of
   two entries comes first is said rule by rule in `HelpOrderLaws`.
4. The packed short option string of a whole tree lists every key at its first use in preorder and
   is decoded to exactly those uses (`HelpTree.ArgpHol`, `HelpTree.ShortIterate`); every option
   stands in the cluster of its argp (`HelpPlaces.ListedInClusters`).
5. The usage loop prints every combination of alternative lines exactly once and stops with all
   levels zero (`UsagePatterns.PrintUsage`, `UsagePatterns.EachCombinationOnce`): whatever line one
   chooses of every documented argp, that usage is among them (`UsageLaws.EveryChoicePrinted`).
6. The parser tables fit the room set aside for them, their groups are linked without sharing a
   child input, and options go to the first argp that declares them
   with the key and argument declared there (`ParserTables.BuildTables`, `OptionDispatch.ParseOpt`,
   `DispatchLaws.LongNameReaches`, `GroupLaws.GroupPlaced`).
7. Help output and parser agree on the owner of a short option exactly when the first argp that
   lists it also has getopt recognize it (`ShadowedOptions.OwnersAgree`).
8. Every run of `argp_parse`, with arbitrary parsing functions that may move the next argument, is
   the run that its events and answers determine; it gives each group the documented life, withholds
   NO_ARGS from every group that processed an argument and returns the first real error code
   (`ParserLifecycle.Parser.Parse`, `ParserLives.GroupLife`, `ParserLives.ErrorReturned`). No
   argument is dropped, none is offered under ARGP_NO_ARGS, and nothing behind `--` is taken for an
   option (`TurnLaws.ArgumentsReachParsers`, `TurnLaws.NoArgsNoOffers`, `TurnLaws.QuotedRest`).
9. The 32-bit and the 64-bit DES core compute the same, and running them with the reversed key
   schedule undoes any number of iterations (`Feistel.Doit32`, `Feistel.DecipherIterate`).
10. The link namespace worklist computes the least closure with shortest explanations
    (`LinkNamespace.Explore`, `LinkNamespace.Check`).

Where the code does something other than its documentation or the obvious expectation says, the
model follows the code and the exact condition is stated:

* A catalog without messages is written, but the reader walks off its end
  (`CatalogFile.WrittenFileOpens`). The countdown of the reader's terminator check starts too high
  to reject a file that has a table (`CatalogFile.AcceptedExactlyWhen`).
* When no table size stays below UINT_MAX the table is made 1 x 1 (`CatalogTable.ChooseSize`,
  `CatalogTable.HugeCountsUnusable`).
* Two sibling clusters of equal group and index mix in the help output; a child argp merged into
  its parent's cluster can create such siblings (`HelpOrder.CollidingSiblingsInterleave`,
  `HelpShapes.MergedChildMixes`).
* Among entries with the same letter, those with a short option come last, where the comment says
  first (`HelpOrderLaws.SameLetter`).
* With ARGP_NO_ARGS the room for the short string does not count the leading character; the string
  fits exactly when some option leaves one of its three characters unused
  (`ParserTables.ShortRoom`, `ParserTables.PrefixUnpaid`).
* A short alias of a documentation entry is listed by the help output but not recognized by the
  parser (`ShadowedOptions.DocAliasDisagrees`).
* argp.h says that no call follows ARGP_KEY_ERROR; the code still calls ARGP_KEY_FINI
  (`ParserLives.GroupLife`). It says that a parser taking ARGP_KEY_ARGS may move the next
  argument itself; the code always moves it to the end (`ParserLifecycle.Parser.ParseArg`).

## Model

| member | source | states |
|---|---|---|
| `CatalogTable.DepthIsMaximum` | glibc-2.35/catgets/gencat.c:885-904 | the depth a table needs is the true maximum bucket length, and at least 1 |
| `CatalogTable.MeasureDepth` | glibc-2.35/catgets/gencat.c:880-906 | despite the early exit, which leaves only the inner loop, a size whose measured cost does not exceed the best so far has been measured exactly, and a size that is given up costs more |
| `CatalogTable.ChooseSize` | glibc-2.35/catgets/gencat.c:863-922 | the search ends with an optimal size (least cells, largest size on ties) and its true depth exactly when some admissible size stays below UINT_MAX; otherwise with 1 x 1 |
| `CatalogTable.OrdinaryCatalogsUsable` | glibc-2.35/catgets/gencat.c:863-922 | a bound on the number of messages that guarantees an optimal table |
| `CatalogTable.HugeCountsUnusable` | glibc-2.35/catgets/gencat.c:864-878 | counts of messages for which the search cannot begin and the fall-back is taken |
| `CatalogTable.OneByOneIsUsable` | glibc-2.35/catgets/gencat.c:863-922 | if 1 x 1 is optimal then the search finds it, so the fall-back is never right by accident |
| `CatalogTable.StartSize` | glibc-2.35/catgets/gencat.c:866-869 | the search begins at the least size with fewer than five messages to a plane position |
| `CatalogTable.OptimalIsLeast` | glibc-2.35/catgets/gencat.c:863-922 | an optimal table has the fewest cells of all tables, of any admissible size, that are deep enough for every bucket |
| `CatalogTable.ProductWraps` | glibc-2.35/catgets/gencat.c:946-946 | the hash is the product of the two numbers while that fits an `int`, and agrees with it modulo 2^32 always |
| `CatalogIndex.FindFree` | glibc-2.35/catgets/gencat.c:946-950 | collision probing stops at the first free cell group of the bucket, inside the table |
| `CatalogIndex.Place` | glibc-2.35/catgets/gencat.c:944-957 | storing a message keeps every cell group of the table right and adds the new one to its bucket |
| `CatalogIndex.Fill` | glibc-2.35/catgets/gencat.c:938-969 | the filled table holds every message in the order of its bucket, and the pool all strings |
| `CatalogIndex.Catgets` | glibc-2.35/catgets/catgets.c:87-114 | failed catalogs, set numbers that are negative or wrap, and negative messages get the default; every other request the first cell group of its plane position that has both numbers |
| `CatalogIndex.ProbeIsFirst` | glibc-2.35/catgets/catgets.c:98-112 | the probing loop gives the offset of the first cell group of the plane position that belongs to the message, or nothing if none does |
| `CatalogIndex.ProbeFinds` | glibc-2.35/catgets/catgets.c:100-109 | a stored message is found through all collisions before it |
| `CatalogIndex.ProbeMisses` | glibc-2.35/catgets/catgets.c:100-112 | a request for something else meets no matching cell group |
| `CatalogIndex.FilledTableServes` | glibc-2.35/catgets/catgets.c:87-114 | for every set and message number the table answers as the plain map: the stored string or the default |
| `CatalogFile.Layout` | glibc-2.35/catgets/gencat.c:971-1003 | the bytes written, whatever the writer's byte order: header, little-endian table, big-endian table, strings |
| `CatalogFile.TableWordsOfBytes` | glibc-2.35/catgets/open_catalog.c:284-294 | a table written in an order is read back word by word by a machine of that order |
| `CatalogFile.SwapTwice` | glibc-2.35/catgets/gencat.c:971-973 | swapping the bytes of a word twice restores it |
| `CatalogFile.HeaderRead` | glibc-2.35/catgets/open_catalog.c:256-282 | the dimensions survive all four combinations of byte orders |
| `CatalogFile.OpenCatalog` | glibc-2.35/catgets/open_catalog.c:256-323 | the decoding and checking loops give the outcome of the value-level reader, whose meaning the `CatalogFormat` rows state |
| `CatalogFile.AcceptedExactlyWhen` | glibc-2.35/catgets/open_catalog.c:300-321 | when the last checks accept, reject or read past the end, as an equivalence |
| `CatalogFormat.MaxOffsetIsLargest` | glibc-2.35/catgets/open_catalog.c:302-306 | the scan finds a bound of all offsets that is one of them, unless it is 0 |
| `CatalogFormat.HeadlessIsInvalid` | glibc-2.35/catgets/open_catalog.c:256-274 | a file that is too short or lacks the magic number in both orders is rejected |
| `CatalogFormat.OpensExactlyWhen` | glibc-2.35/catgets/open_catalog.c:256-323 | for every file with the magic number, dimensions and offsets spelled by its bytes: exactly when it is opened, rejected or read past its end |
| `CatalogFormat.OpenedHolds` | glibc-2.35/catgets/open_catalog.c:273-299 | an opened catalog holds the dimensions in the order of the writer, the words of the table in the order of the reader, and the strings |
| `CatalogFormat.FarOffsetIsInvalid` | glibc-2.35/catgets/open_catalog.c:302-313 | one offset that reaches past the end is enough to reject a file |
| `CatalogFormat.WrittenSpells` | glibc-2.35/catgets/gencat.c:971-1003 | the bytes of a written file spell the magic number, the dimensions and the table, the latter in little-endian and then in big-endian order, and end with the strings |
| `CatalogFile.WrittenFileOpens` | glibc-2.35/catgets/open_catalog.c:256-323 | a written catalog with a message opens with exactly the dimensions, table and strings of the writer; one without reads past the end |
| `CatalogFile.WriteOut` | glibc-2.35/catgets/gencat.c:843-1003 | sizing, filling and layout together: readers of both byte orders serve the map of the messages |
| `MessageLists.InsertFinds` | glibc-2.35/catgets/gencat.c:1265-1287 | inserting at the right place answers the new number and changes no other answer |
| `MessageLists.RemoveFinds` | glibc-2.35/catgets/gencat.c:1288-1296 | removing a message removes its answer and no other |
| `MessageLists.LookupIsContents` | glibc-2.35/catgets/gencat.c:885-892 | on well-formed lists, searching sets and messages is searching the flat map that is written |
| `MessageLists.MergeIsOverride` | glibc-2.35/catgets/gencat.c:1243-1295 | reading slots with distinct keys is the override of the old map by the new one, an empty new message deleting |
| `MessageLists.AnyOrder` | glibc-2.35/catgets/gencat.c:1241-1297 | slots with distinct keys may be read in any order |
| `MessageNumbering.RunConsistent` | glibc-2.35/catgets/gencat.c:587-676 | over every sequence of lines numbers and symbols stay unique and no number exceeds the last one |
| `MessageNumbering.StepConsistent` | glibc-2.35/catgets/gencat.c:587-676 | every line keeps that invariant, also when it evicts an auto-numbered message |
| `MessageNumbering.RunKeeps` | glibc-2.35/catgets/gencat.c:587-676 | over every continuation of every run, user numbers and symbols keep their texts |
| `MessageNumbering.Evicted` | glibc-2.35/catgets/gencat.c:617-641 | moving a symbolic message to a fresh number at the tail keeps the list sorted and is the intended clearing of the number |
| `NumberingLaws.NumberedLine` | glibc-2.35/catgets/gencat.c:587-650 | after a line with a fresh number exactly these messages are there: its own, the others, and the evicted one under the next unused number |
| `NumberingLaws.SymbolicLine` | glibc-2.35/catgets/gencat.c:651-676 | a line with a new symbol adds its message under the next unused number and nothing else |
| `NumberingLaws.RefusedLine` | glibc-2.35/catgets/gencat.c:608-616 | number 0, a number given before and a symbol in use change nothing |
| `NumberingLaws.FirstTextIs` | glibc-2.35/catgets/gencat.c:587-676 | the first text of a number or symbol is that of a line which gives it one, no line before doing so |
| `NumberingLaws.UserTexts` | glibc-2.35/catgets/gencat.c:587-803 | over every sequence of lines a user number holds a text if and only if that is the first text the lines give it |
| `NumberingLaws.SymbolTexts` | glibc-2.35/catgets/gencat.c:587-803 | the same for symbols, whatever numbers they are moved to |
| `NumberingLaws.RunHoldsFirstTexts` | glibc-2.35/catgets/gencat.c:587-803 | a set holds exactly the first texts of its numbers and symbols, and no other message |
| `CatalogSets.SetList.AddNumbered` | glibc-2.35/catgets/gencat.c:587-650 | a numbered line on the sorted list is the step that `NumberingLaws.NumberedLine` and `RefusedLine` describe, and keeps the list consistent |
| `CatalogSets.SetList.AddSymbolic` | glibc-2.35/catgets/gencat.c:651-676 | a line with an identifier is the step that `NumberingLaws.SymbolicLine` and `RefusedLine` describe |
| `CatalogSets.SetList.AddLines` | glibc-2.35/catgets/gencat.c:587-676 | over every sequence of lines the list stays strictly increasing and consistent and ends with exactly the first text of every number and symbol |
| `CatalogSets.SetList.Evict` | glibc-2.35/catgets/gencat.c:617-641 | the relinking of an evicted message |
| `CatalogSets.SetList.FindHigher` | glibc-2.35/catgets/gencat.c:783-799 | the insertion loop finds the place that splits the list at the new number |
| `CatalogSets.SetList.Insert` | glibc-2.35/catgets/gencat.c:783-803 | insertion keeps the list strictly increasing and adds exactly the new message |
| `CatalogSets.SetList.Apply` | glibc-2.35/catgets/gencat.c:1256-1293 | what one old message does to the list of its set |
| `CatalogSets.Catalog.FindSet` | glibc-2.35/catgets/gencat.c:1073-1095 | the set of a number is found or created, set numbers stay unique and no answer changes |
| `CatalogSets.Catalog.ReadOld` | glibc-2.35/catgets/gencat.c:1237-1297 | after the merge every key is answered as reading the slots in order prescribes, all lists stay strictly sorted, and the inserted messages are counted |
| `CatalogMerge.WrittenSlotsDistinct` | glibc-2.35/catgets/gencat.c:1243-1250 | the occupied slots of a written table have distinct keys |
| `CatalogMerge.WrittenOldMap` | glibc-2.35/catgets/gencat.c:1243-1254 | a written table read back slot by slot stands for exactly the map that was written |
| `CatalogMerge.MergeOfWritten` | glibc-2.35/catgets/gencat.c:1237-1297 | merging a written table is the override of its map; into an empty catalog it restores it |
| `CatalogMerge.MergeOutput` | glibc-2.35/catgets/gencat.c:1218-1297 | a catalog written by `write_out` in one byte order, opened in either and merged by `read_old`: a new text wins, an empty new text deletes an old one, other old messages stay; one without messages does not open |
| `CatalogMerge.Reread` | glibc-2.35/catgets/gencat.c:1218-1297 | writing a catalog and reading it into an empty one restores every answer |
| `NormalizeLine.ReadEscape` | glibc-2.35/catgets/gencat.c:1120-1200 | the switch after an escape character: the quote, letters, octal numbers, the escape character, and anything else, before which the escape is dropped |
| `NormalizeLine.Normalize` | glibc-2.35/catgets/gencat.c:1098-1215 | the buffer is rewritten in place, the write position never passing the read position, and ends as the normalized text; a missing closing quote is reported exactly when there is none |
| `NormalizeLine.QuotedRoundTrip` | glibc-2.35/catgets/gencat.c:1112-1200 | every text can be quoted and escaped so that it normalizes to itself |
| `LineTokens.LineMeans` | glibc-2.35/catgets/gencat.c:1112-1215 | a line written from tokens (characters, the six letters, escaped quote and escape, octal numbers with the value of their digits, escapes of nothing), quoted or not, normalizes to what they stand for, and the missing closing quote is noticed |
| `LineTokens.EveryLine` | glibc-2.35/catgets/gencat.c:1112-1200 | every line consists of such tokens up to its first unescaped quote or its end |
| `LineTokens.NormalizedMeans` | glibc-2.35/catgets/gencat.c:1098-1215 | so every line normalizes to the meaning of its tokens |
| `HelpOrder.EntryCmpIsLex` | glibc-2.35/argp/argp-help.c:785-895 | the sign of `hol_entry_cmp` is the lexicographic comparison of keys made of base group, cluster path, group and names |
| `HelpOrder.EntryCmpTransitive` | glibc-2.35/argp/argp-help.c:785-796 | the four documented transitivity clauses, for entries at any depths |
| `HelpOrder.EntryCmpAntisymmetric` | glibc-2.35/argp/argp-help.c:796-895 | exchanging the entries negates the sign |
| `HelpOrder.GroupLex` | glibc-2.35/argp/argp-help.c:671-682 | groups compare as pairs of sign and number; `HelpOrderLaws.GroupsInOrder` says in which order that is |
| `HelpOrder.CousinLex` | glibc-2.35/argp/argp-help.c:698-722 | clusters of equal depth compare as their paths |
| `HelpOrder.ClusterLex` | glibc-2.35/argp/argp-help.c:724-755 | clusters of any depths compare as their paths, the deeper one later when one contains the other |
| `HelpOrder.CaseLex` | glibc-2.35/argp/argp-help.c:879-887 | names compare by their folded characters |
| `HelpOrder.NameLex` | glibc-2.35/argp/argp-help.c:834-890 | entries of one group and cluster compare by their names |
| `HelpOrder.SortedIsContiguous` | glibc-2.35/argp/argp-help.c:800-832 | in a sorted listing the entries of a cluster and its descendants are one block, when siblings are distinct |
| `HelpOrder.DirectBeforeNested` | glibc-2.35/argp/argp-help.c:800-832 | direct entries of a cluster come before those of its sub-clusters |
| `HelpOrder.CollidingSiblingsInterleave` | glibc-2.35/argp/argp-help.c:684-696 | siblings of equal group and index: a sorted listing that splits one by the other |
| `HelpOrder.DistinctSiblingsDecide` | glibc-2.35/argp/argp-help.c:684-696 | every sorted listing keeps every cluster in one block if and only if siblings are distinct |
| `HelpOrderLaws.GroupsInOrder` | glibc-2.35/argp/argp-help.c:671-682 | outside clusters entries stand in the order of groups 0, 1, 2, ..., n, -m, ..., -2, -1 |
| `HelpOrderLaws.OuterGroupsInOrder` | glibc-2.35/argp/argp-help.c:800-819 | the group of the outermost cluster counts for an entry inside, and entries outside clusters come first |
| `HelpOrderLaws.SiblingsInOrder` | glibc-2.35/argp/argp-help.c:684-755 | everything in or below one of two sibling clusters stands before the other, by group and then by falling index |
| `HelpOrderLaws.GroupsInCluster` | glibc-2.35/argp/argp-help.c:828-832 | in one cluster the own groups decide |
| `HelpOrderLaws.ProseLast` | glibc-2.35/argp/argp-help.c:836-846 | documentation whose name, behind white space, does not begin with a dash follows everything else of its group and cluster |
| `HelpOrderLaws.FirstLongIs` | glibc-2.35/argp/argp-help.c:621-632 | the long name of an entry is the first visible one |
| `HelpOrderLaws.FirstShortIs` | glibc-2.35/argp/argp-help.c:613-619 | the short option of an entry is its first visible one, when the packed string confirms all of them |
| `HelpOrderLaws.FirstShortFound` | glibc-2.35/argp/argp-help.c:553-576 | a short option counts only when it is a visible one of the entry and in the packed string |
| `HelpOrderLaws.SortNameIs` | glibc-2.35/argp/argp-help.c:768-783 | documentation is sorted by its name from the first letter or digit behind white space on |
| `HelpOrderLaws.LettersInOrder` | glibc-2.35/argp/argp-help.c:848-868 | the letters of two entries decide regardless of case, then the higher character comes first |
| `HelpOrderLaws.SameLetter` | glibc-2.35/argp/argp-help.c:870-891 | entries with the same letter: without a short option before with one, without a name before with one, then by name; two with the same short option are not ordered |
| `FirstUses.TestRecognizes` | glibc-2.35/argp/argp-help.c:563-573 | comparing a key with the next packed character recognizes exactly the first uses |
| `FirstUses.FirstsDistinct` | glibc-2.35/argp/argp-help.c:472-499 | every short key is listed once |
| `HelpLists.FirstsFit` | glibc-2.35/argp/argp-help.c:443-466 | the packed string fits the counted number of short options |
| `HelpLists.TakeEntry` | glibc-2.35/argp/argp-help.c:484-496 | the inner loop takes an option with its aliases and appends the keys not used before |
| `HelpLists.MakeHol` | glibc-2.35/argp/argp-help.c:433-502 | one entry per option that is no alias, groups inherited as documented, keys packed in order of first use |
| `HelpLists.MergeOption` | glibc-2.35/argp/argp-help.c:975-996 | one option of the second list: its key is kept exactly when it is new to both lists |
| `HelpLists.HolAppend` | glibc-2.35/argp/argp-help.c:918-1011 | the merged list has the entries of both, repacked as if built in one go |
| `HelpTree.ShortIterate` | glibc-2.35/argp/argp-help.c:553-576 | decoding an entry recognizes exactly the options that are the first in the list to use their key |
| `HelpTree.ArgpHol` | glibc-2.35/argp/argp-help.c:1013-1034 | the list of a tree is packed and holds the entries of its argps in preorder, each with its aliases, group, cluster and argp |
| `HelpTree.ListedInPreorder` | glibc-2.35/argp/argp-help.c:1013-1034 | so it holds the options in preorder, and the packed string their first uses |
| `HelpTree.TreePlaced` | glibc-2.35/argp/argp-help.c:1018-1030 | every entry is in a cluster created for the tree or in the given one |
| `HelpTree.RecognizedOwner` | glibc-2.35/argp/argp-help.c:975-996 | a recognized short option belongs to the argp that declares it first |
| `HelpPlaces.GroupsInherited` | glibc-2.35/argp/argp-help.c:476-484 | the group of an entry is the last one given up to it, or 0, plus the number of nameless and keyless options that opened a group since |
| `HelpPlaces.ListedInClusters` | glibc-2.35/argp/argp-help.c:1013-1034 | every listed option stands in the cluster of its argp: that of the nearest child record above it with a group or a header, one level below the cluster of the argp with that child |
| `HelpPlaces.UseListed` | glibc-2.35/argp/argp-help.c:1013-1034 | every option of every argp of the tree is listed |
| `HelpPlaces.UsesInOrder` | glibc-2.35/argp/argp-help.c:1013-1034 | options are listed in the order of the places of their argps, parents before children |
| `HelpPlaces.UsesCounted` | glibc-2.35/argp/argp-help.c:1013-1034 | no option is listed twice |
| `HelpPlaces.ListedLetter` | glibc-2.35/argp/argp-help.c:613-619 | the short option that counts for a listed entry is its first visible one that no option before it uses |
| `HelpListing.TreeForest` | glibc-2.35/argp/argp-help.c:505-525 | the clusters of a tree form a forest |
| `HelpListing.TidyDecides` | glibc-2.35/argp/argp-help.c:1018-1030 | sibling clusters of a tree are distinct if and only if no two clusters with one parent, counting those of merged children, share group and index |
| `HelpListing.CleanTreesAreTidy` | glibc-2.35/argp/argp-help.c:1018-1030 | trees whose merged children bring no clusters of their own are tidy |
| `HelpListing.OutputIsListing` | glibc-2.35/argp/argp-help.c:906-914 | the entries of a tree's list, in any order, are comparable and lie in the tree's clusters |
| `HelpListing.TidyOutput` | glibc-2.35/argp/argp-help.c:906-914 | the sorted help output of a tidy tree keeps every cluster in one block |
| `HelpListing.TidyTreesDecide` | glibc-2.35/argp/argp-help.c:800-832 | all sorted listings over the clusters of a tree do so if and only if it is tidy |
| `HelpShapes.UntidyMixes` | glibc-2.35/argp/argp-help.c:684-696 | every untidy shape has options under which every sorted help output splits a cluster |
| `HelpShapes.ShapesDecide` | glibc-2.35/argp/argp-help.c:906-914 | a shape keeps its clusters together in the help output of all its trees if and only if it is tidy |
| `HelpShapes.MergedChildMixes` | glibc-2.35/argp/argp-help.c:1018-1030 | a tree with a merged child whose help output in the C locale lists -b of one cluster between -a and -c of another |
| `UsagePatterns.ValueBelowCount` | glibc-2.35/argp/argp-help.c:1484-1500 | combinations are numbered below the product of the line counts |
| `UsagePatterns.ValueInjective` | glibc-2.35/argp/argp-help.c:1502-1560 | different combinations have different numbers |
| `UsagePatterns.AdvanceAdds` | glibc-2.35/argp/argp-help.c:1502-1560 | a call adds the carry to the number and carries out exactly on overflow |
| `UsagePatterns.LevelsFit` | glibc-2.35/argp/argp-help.c:1699-1720 | with at most 128 lines each the levels fit in a `char` |
| `UsagePatterns.ArgsUsage` | glibc-2.35/argp/argp-help.c:1502-1560 | prints the lines that `UsageLaws.PatternSelects` describes and rewrites exactly its part of the level vector |
| `UsagePatterns.PrintUsage` | glibc-2.35/argp/argp-help.c:1699-1748 | the loop prints as many lines as there are combinations, numbered from 0, and leaves all levels zero |
| `UsagePatterns.EachCombinationOnce` | glibc-2.35/argp/argp-help.c:1699-1748 | every combination is printed, and once |
| `UsageLaws.InRangeIsFit` | glibc-2.35/argp/argp-help.c:1484-1500 | the vectors enumerated are those with one level for each argp with alternatives that select existing lines |
| `UsageLaws.CountIsWays` | glibc-2.35/argp/argp-help.c:1699-1748 | there are as many usage lines as ways to choose a line of every documented argp |
| `UsageLaws.PatternSelects` | glibc-2.35/argp/argp-help.c:1518-1543 | a usage line has one part for each argp with argument documentation, in preorder: the line its own level selects, or its only line |
| `UsageLaws.EveryChoicePrinted` | glibc-2.35/argp/argp-help.c:1699-1748 | whatever line is chosen of every documented argp, that usage line is printed |
| `UsageLaws.LinesInOrder` | glibc-2.35/argp/argp-help.c:1540-1557 | the lines come in the order in which the own line changes last and the first child's fastest |
| `PackedKeys.UnpackPack` | glibc-2.35/argp/argp-parse.c:76-82 | group and signed key are recovered if and only if the group is at most the 127th and the key fits in 24 bits |
| `PackedKeys.PackedIsDistinct` | glibc-2.35/argp/argp-parse.c:68-82 | packed values differ from getopt's own values and from short options |
| `OptionTables.FindLongOption` | glibc-2.35/argp/argp-parse.c:195-212 | the index of the first option of a name, or -1 if there is none |
| `OptionTables.TableGrows` | glibc-2.35/argp/argp-parse.c:348-372 | adding an option only under a new name keeps one option per name, the first asked for |
| `OptionTables.TextLengths` | glibc-2.35/argp/argp-parse.c:464-468 | options take at most three characters and one long option each, and all three exactly for short options with optional arguments |
| `ParserTables.Converter.ConvertOption` | glibc-2.35/argp/argp-parse.c:333-374 | what one option adds to the short string and to the long options; `DispatchLaws.ShortOptionText` and `LongNameEntered` say what that is |
| `ParserTables.Converter.ConvertOwn` | glibc-2.35/argp/argp-parse.c:325-376 | an option list, each alias with the argument of its real option |
| `ParserTables.Converter.AddGroup` | glibc-2.35/argp/argp-parse.c:321-400 | the group of an argp: the end of its short options, its parent, its child inputs |
| `ParserTables.Converter.ConvertOptions` | glibc-2.35/argp/argp-parse.c:312-411 | a whole tree: short string, long options, groups and child inputs in preorder |
| `ParserTables.ParserSizes.CalcSizes` | glibc-2.35/argp/argp-parse.c:453-478 | the room set aside for a tree |
| `ParserTables.CountsSuffice` | glibc-2.35/argp/argp-parse.c:453-478 | no table outgrows its count, and the short string reaches its count only when every option takes three characters |
| `ParserTables.ShortRoom` | glibc-2.35/argp/argp-parse.c:424-428 | the short string with its prefix fits if and only if ARGP_NO_ARGS is clear or some option leaves a character unused |
| `ParserTables.PrefixUnpaid` | glibc-2.35/argp/argp-parse.c:490-490 | an argp for which it does not fit |
| `ParserTables.TreeLinked` | glibc-2.35/argp/argp-parse.c:378-408 | parents come before children, and no two groups read the same child input of a parent |
| `ParserTables.TreeSliced` | glibc-2.35/argp/argp-parse.c:388-398 | the child inputs of different groups do not overlap |
| `GroupLaws.GroupPlaced` | glibc-2.35/argp/argp-parse.c:312-411 | every group is that of an argp with options or a parsing function, and its parent is the group of the argp above, at the number of the child, if that argp has a group |
| `GroupLaws.GroupFound` | glibc-2.35/argp/argp-parse.c:321-400 | every such argp has a group |
| `GroupLaws.GroupsInPreorder` | glibc-2.35/argp/argp-parse.c:400-411 | groups stand in the order of the places of their argps |
| `GroupLaws.GroupsDistinct` | glibc-2.35/argp/argp-parse.c:378-400 | no two groups are of the same argp |
| `ParserTables.BuildTables` | glibc-2.35/argp/argp-parse.c:413-518 | sizes and tables together: everything fits as stated, and the groups are well linked |
| `OptionDispatch.TreeFound` | glibc-2.35/argp/argp-parse.c:735-751 | in every tree the first group whose short options end after the first place of a key is that of the first argp to use it |
| `OptionDispatch.ParseOpt` | glibc-2.35/argp/argp-parse.c:726-760 | a short option goes to the group of the first argp in preorder that has it recognized, a long option to its packed group with its signed key |
| `OptionDispatch.LongDispatch` | glibc-2.35/argp/argp-parse.c:348-372 | a long name leads to the first argp in preorder that declares it, with that key, if and only if the packing is lossless |
| `DispatchLaws.RealIsSource` | glibc-2.35/argp/argp-parse.c:325-331 | an option takes its values from the nearest option up to it that is no alias |
| `DispatchLaws.LongNameEntered` | glibc-2.35/argp/argp-parse.c:348-372 | the table holds, for a declared name, the argument kind of the option that the first declaration takes its values from, and the key of the declaration or else of that option |
| `DispatchLaws.LongNameReaches` | glibc-2.35/argp/argp-parse.c:348-372 | dispatch by the packed value arrives at the argp that declares the name first, with that key, if and only if group number and key survive packing |
| `DispatchLaws.UndeclaredName` | glibc-2.35/argp/argp-parse.c:348-372 | a name that no option declares is not in the table |
| `DispatchLaws.ShortKeyBelongs` | glibc-2.35/argp/argp-parse.c:735-751 | a short key belongs to the argp that declares it first, if any does |
| `DispatchLaws.ShortOptionText` | glibc-2.35/argp/argp-parse.c:335-346 | getopt is told the key of a short option and one colon for an argument, two for an optional one |
| `ShadowedOptions.OwnersAgree` | glibc-2.35/argp/argp-help.c:983-996 | help list and parser credit the same argp with a short option if and only if the first argp that lists it has getopt recognize it |
| `ShadowedOptions.HelpTellsTheParser` | glibc-2.35/argp/argp-parse.c:735-751 | an option shown under an entry is parsed by the entry's argp under exactly that condition |
| `ShadowedOptions.TidyTreesAgree` | glibc-2.35/argp/argp-parse.c:325-346 | the condition holds for all keys when no short option is an alias of a documentation entry |
| `ShadowedOptions.DocAliasDisagrees` | glibc-2.35/argp/argp-parse.c:330-333 | a tree where help list and parser disagree |
| `ParserLifecycle.Parser.GroupParse` | glibc-2.35/argp/argp-parse.c:244-263 | a call to a group with its answer logged, or EBADKEY without a parsing function |
| `ParserLifecycle.Parser.InitAll` | glibc-2.35/argp/argp-parse.c:533-554 | INIT reaches a first stretch of the groups, all of them unless an error code that is not tolerated ends it |
| `ParserLifecycle.Parser.OfferTo` | glibc-2.35/argp/argp-parse.c:691-701 | a group is offered the argument, and the rest exactly when it rejects it, each call starting at its proper place |
| `ParserLifecycle.Parser.OfferAll` | glibc-2.35/argp/argp-parse.c:686-702 | groups are offered the argument in order until one does not reject it |
| `ParserLifecycle.Parser.ParseArg` | glibc-2.35/argp/argp-parse.c:671-723 | the group that takes an argument, and no other, is credited with what it took; one that goes back gives getopt another chance |
| `ParserLifecycle.Parser.BeginTurn` | glibc-2.35/argp/argp-parse.c:792-860 | when getopt is asked, what its answer means, and where the quoted part begins, as the `TurnLaws` rows describe for whole runs |
| `ParserLifecycle.Parser.ParseNext` | glibc-2.35/argp/argp-parse.c:784-873 | a turn is exactly what its event and the answers determine: its calls, error, next argument and credit |
| `ParserLifecycle.Parser.ReadAll` | glibc-2.35/argp/argp-parse.c:919-921 | the loop stops at the first turn that fails, and the argument counts are the credits of the turns |
| `ParserLifecycle.Parser.Finalize` | glibc-2.35/argp/argp-parse.c:579-669 | which closing passes run, how far they get, with one answer per call, and which error code is returned |
| `ParserLifecycle.Parser.Parse` | glibc-2.35/argp/argp-parse.c:914-926 | calls, answers and value of every run: initialization, turns, closing passes; a run is unfinished only when all events were used and every turn succeeded |
| `ParserRuns.CountsTell` | glibc-2.35/argp/argp-parse.c:706-720 | an argument count is zero exactly for a group that processed no argument in any turn |
| `ParserLives.CreditMeans` | glibc-2.35/argp/argp-parse.c:706-716 | a turn that credits a group ended with a call of it that succeeded |
| `ParserLives.GroupLife` | glibc-2.35/argp/argp.h:123-140 | INIT once, options and arguments, at most one NO_ARGS and only without an argument processed in any turn, at most one END, ERROR or SUCCESS but never both, FINI once and last |
| `ParserLives.SuccessfulLife` | glibc-2.35/argp/argp.h:126-136 | a run that returns 0 gives every parser one of the documented sequences, then FINI |
| `ParserLives.AbortedLife` | glibc-2.35/argp/argp-parse.c:550-554 | after a failed initialization nothing but INIT was called |
| `ParserLives.ErrorReturned` | glibc-2.35/argp/argp-parse.c:875-880 | the first error code that is not tolerated ends the run and is returned; without one, EINVAL stands for an option or argument nobody understood, and 0 for success |
| `ParserLives.OneResult` | glibc-2.35/argp/argp-parse.c:914-926 | the answers and turns of a run determine the value returned |
| `ParserLives.ChildrenFirst` | glibc-2.35/argp/argp-parse.c:646-661 | END, SUCCESS and FINI reach groups in falling order |
| `ParserLives.ChildBeforeParent` | glibc-2.35/argp/argp-parse.c:646-661 | so a child hears of them before its parent, for the groups of any argp tree |
| `TurnLaws.NoArgsNoOffers` | glibc-2.35/argp/argp-parse.c:845-854 | under ARGP_NO_ARGS no run offers a parser an argument, unless getopt itself returns one |
| `TurnLaws.ArgumentsReachParsers` | glibc-2.35/argp/argp-parse.c:845-866 | an argument that getopt returns, or that is left over once it has finished, is the subject of the turn, and every parser is called with it until one settles it |
| `TurnLaws.OptionsReachParsers` | glibc-2.35/argp/argp-parse.c:863-868 | an option that getopt finds reaches the parser of its group with its key |
| `TurnLaws.SeenOfArgument` | glibc-2.35/argp/argp-parse.c:686-702 | of an argument a group sees ARG and, having rejected it, ARGS at once; nothing if an earlier group settled it |
| `TurnLaws.QuotedRest` | glibc-2.35/argp/argp-parse.c:819-832 | nothing behind a quoting `--` is taken for an option unless a parser goes back before it |
| `TurnLaws.OptionsEnd` | glibc-2.35/argp/argp-parse.c:819-845 | once getopt has found the end of the options no turn takes one until a parser goes back |
| `TurnLaws.GetoptGoesOn` | glibc-2.35/argp/argp-parse.c:794-845 | getopt is asked in the first turn, after a turn in which it found something, and after a parser went back, unless within the quoted part |
| `TurnLaws.IdleAreTold` | glibc-2.35/argp/argp-parse.c:592-600 | in a successful run that read everything a parser is told NO_ARGS if and only if it took no argument |
| `TurnLaws.RestTaken` | glibc-2.35/argp/argp-parse.c:706-713 | a parser that takes the whole rest leaves nothing |
| `TurnLaws.LastTurnDecides` | glibc-2.35/argp/argp-parse.c:586-664 | a refused or unknown option gives EINVAL; an argument nobody takes does so unless the caller takes the index of the rest |
| `Feistel.RoundsReversed` | glibc-2.35/crypt/crypt.c:93-108 | rounds under the reversed keys on the swapped block undo the rounds |
| `Feistel.DecipherIterate` | glibc-2.35/crypt/crypt.c:91-109 | n iterations and n iterations under the reversed schedule are the identity, for every cipher function and n |
| `Feistel.XorZero` | glibc-2.35/crypt/crypt.c:93-105 | a word of zeros changes nothing |
| `Feistel.RoundBit` | glibc-2.35/crypt/crypt.c:93-105 | a round bit by bit: the low two 16-bit pieces of K ^ R select from `sb23`, the high two from `sb01`, and each bit of the left half is flipped by the four words found |
| `Feistel.EightPairs` | glibc-2.35/crypt/crypt.c:93-105 | the unrolled loop is sixteen rounds without the swaps of FIPS PUB 46-3 |
| `Feistel.Doit64` | glibc-2.35/crypt/crypt.c:79-113 | the 64-bit code computes the iterated cipher on the packed block |
| `Feistel.Mix32` | glibc-2.35/crypt/crypt.c:52-57 | the eight look-ups of a half step, in their own order, are the four of the joined tables |
| `Feistel.Doit32` | glibc-2.35/crypt/crypt.c:34-69 | the 32-bit code computes the same function on the joined tables and keys |
| `Feistel.EitherOrderRestores` | glibc-2.35/crypt/crypt_util.c:820-843 | enciphering then deciphering with one schedule, in either order, gives the block back |
| `Feistel.CryptData.ReverseKeyTable` | glibc-2.35/crypt/crypt_util.c:835-841 | the exchange loop of the 64-bit code reverses the schedule in place |
| `Feistel.ReverseKeyTable32` | glibc-2.35/crypt/crypt_util.c:824-834 | the exchange of word pairs of the 32-bit code reverses the joined schedule |
| `Feistel.CryptData.Crypt` | glibc-2.35/crypt/crypt_util.c:820-875 | whatever the previous operation was, the block is processed with the schedule the flag asks for |
| `LinkNamespace.BuildTables` | glibc-2.35/conform/linknamespace.py:99-113 | the three dictionaries represent exactly the relations of the listing |
| `LinkNamespace.LineMeans` | glibc-2.35/conform/linknamespace.py:100-113 | what each of the four kinds of listing lines says: who defines, shows and needs a symbol |
| `LinkNamespace.VisitSymbols` | glibc-2.35/conform/linknamespace.py:186-202 | a round keeps the records sound and visits every object of its symbols, in any order |
| `LinkNamespace.NothingBeyond` | glibc-2.35/conform/linknamespace.py:184-203 | with an empty frontier no chain of any length leads anywhere new |
| `LinkNamespace.Explore` | glibc-2.35/conform/linknamespace.py:184-203 | the worklist ends; it has visited exactly the objects of the least closure and recorded exactly the reachable symbols, each with a valid chain of minimum length |
| `LinkNamespace.LengthIsFiles` | glibc-2.35/conform/linknamespace.py:184-203 | the length of a chain, which is minimal, is the number of objects it goes through |
| `LinkNamespace.Check` | glibc-2.35/conform/linknamespace.py:99-213 | status 1 if and only if some symbol that neither begins with an underscore nor is standard can be brought in; exactly those are reported, each with a shortest chain |

## Left out

- The lists of `gencat` are sequence fields of objects, not linked nodes: pointer relinking and sharing are not captured, the order of the lists and every update are.
- CatalogIndex.Fill: the string area is taken to stay below 2^32 bytes and strings to hold no NUL, as the file format presumes.
- CatalogFile.WriteOut: asks for a catalog that some table size below UINT_MAX can hold, the exact condition under which `ChooseSize` does not fall back to 1 x 1; set numbers are positive, message numbers not negative and both below 2^31; a product that overflows wraps to 32 bits and is not undefined.
- Character conversion: a message text is given in its final encoding, or missing when it cannot be converted.
- NormalizeLine.Normalize: characters are numbers; what iconv does to a byte escape is not modelled.
- `$delset` and its `deleted` flag, which nothing reads; `$set` with a symbolic name and the freshness of the numbers it hands out; the header file output.
- NLSPATH expansion, mapping and reading of files, memory allocation and its failures, locale and message output.
- HelpOrder.EntryCmpIsLex: comparisons are over mathematical integers, so differences of extreme group numbers do not overflow.
- `IsShort` takes the printable characters of the C and UTF-8 locales.
- UsagePatterns.PrintUsage: levels are natural numbers; LevelsFit states when the `char` cells of the code hold them. Translation and help filters of the lines are not modelled.
- Word wrapping of the help output (`argp-fmtstream.c`) and the printing of entries.
- HelpTree.ArgpHol: the first option of a list is no alias, as the code asserts, and names hold no NUL.
- OptionDispatch.ParseOpt: the keys ':' and, with the flags that use them, '-' and '+' are excluded from the promise for short options, because the short string uses these characters for itself.
- ParserLifecycle.Parser.Parse: getopt is an arbitrary source of answers, one per turn, and the loop may go on for ever: a run is followed as far as the given answers reach; the process does not exit from a callback.
- `parser_init` copies input pointers between groups; the model states that the copied slot exists and is the group's own, not what is stored there.
- Feistel.CryptData.Crypt: the permutations, the expansion and the salt around the core are not modelled; the block is taken after the expansion.
- Feistel.Doit64: S-box tables are arbitrary functions of the byte offset; building them, the key schedule, the initial and final permutations and the salt are not modelled.
- LinkNamespace.Explore: the reading of symbol listings, the compiler runs and the text of a chain; the sorted order of a round is replaced by any order.
- `md5`, `sha` and the headers under `bits` would only add straight-line members.
