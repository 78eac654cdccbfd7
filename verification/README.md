# Verified models of sorm and zlog

This project models the parts of sorm (a small C object-relational layer over SQLite) and of the zlog 1.2.1
logger it ships with in which the data structures, the protocols and the text arithmetic are hard to get
right, and proves what they are for. One file holds one component:

| file | component |
|---|---|
| `HashTable.dfy` | the chained hash table: links, bucket placement, rehash, cursor; a finite map over every run |
| `Ring.dfy` | the circular lists of quicklist.h and sorm.h; plain sequences over every run |
| `Rules.dfy`, `Category.dfy` | level bitmaps against the rules they stand for; update, commit and rollback of all categories |
| `Digits.dfy`, `Buffer.dfy`, `HexDump.dfy` | digit loops, the capped buffer, the hex dump and its reader |
| `ArrayList.dfy`, `Rotater.dfy` | sorted insertion; rolling and sequence rotation over every run |
| `Quoting.dfy` | quote doubling in place |
| `Statement.dfy` | insert, delete and update texts, and how placeholders and bound columns line up |
| `SelectColumns.dfy` | the select list, its index and row filling |
| `Rows.dfy` | list, array and iterator readers of a result |
| `Select.dfy` | the two together: from the text of a list to the rows every reader delivers |
| `Common.dfy` | what several of them share |
| `Transaction.dfy`, `Lock.dfy` | the nested-transaction counter against the engine; the lock around engine steps |

Objects the source updates in place are classes whose methods are tied to a specification: the abstract value
of a table is a map, that of a ring a sequence, that of a buffer the whole text ever written to it. What
the source promises is then proved about these values. Every function by which a contract says what is computed
has a lemma that pins it from the outside: a reader that undoes it, a relation with one solution, or its
elements one by one. `dafny verify dfyconfig.toml` covers all files.

Things the proofs brought out, each kept as the code has it and stated exactly:

- `_fix_string` counts one quote too few exactly for strings that start with one (`Quoting.CountedExactly`). Unless
  such a string is refused as too long, the first of its doubled quotes is written before the buffer and the
  rest of the string into it (`Quoting.FixString`).
- `sorm_update` without a valued unique column cuts its statement inside `WHERE` (`Statements.UpdateMeant`), and its
  ` WHERE` is written past the 1024 bytes of the statement exactly when the text before it has 1018 to 1022
  characters (`Statements.Update`, `Statements.OverrunRows`).
- `trim` reads the character before the column list exactly when the first item of the list is nothing but blanks, as
  in an empty text (`SelectColumns.Trim`, `SelectColumns.Parse`, `SelectColumns.BlankStarts`).
- `zc_arraylist_set` makes room for an index past the end exactly when doubling does; otherwise it writes the cell
  behind the end (`ArrayLists.GrowthReaches`, `ArrayLists.ArrayList.Set`).
- A rolling rotation overwrites a live archive exactly when a file it renames gets the number of a file at an earlier
  place of the list, as the last of the archives 0, 3, 4 does; archives without a gap never clash
  (`Rotaters.RollFiles`, `Rotaters.GapClash`, `Rotaters.NoGapNoClash`). A sequence rotation never overwrites anything.
- A rollback after any update, successful or not, restores a category that had rules before it; one without rules is
  as it was exactly when the update failed and its map was already that of the rules gone through before the
  memory ran out (`Categories.RollbackRestoresExactly`). An update fails exactly when there is no memory for the list
  or for one of the rules that go into it (`Categories.Category.ObtainRules`), that of the table exactly when this
  happens to one of its categories (`Categories.UpdateTable`). A reload that
  fails leaves every category as it was if and only if there was memory to update them all
  (`Categories.Reload`, `Categories.FailedReload`): after a failed update nothing is
  rolled back, and the rules are lost with the next one (`Categories.LostAfterFailure`).
- The transaction counter follows the engine exactly while no step succeeds whose finalize fails, and no
  rollback fails whose finalize succeeds (`Transactions.NextConsistent`, `Transactions.ConsistentExactly`).
- Beginning a transaction takes no lock, a step inside one takes none either, and ending one releases what was never
  taken. Two connections are therefore inside the engine together only as readers of a read-write lock, or because
  one of them has an open transaction, or because such a release has happened (`Locks.TogetherOnly`); with
  everyone outside, two can get in under the semaphore if and only if one of the latter two holds
  (`Locks.SharedExactly`).

## Model

| member | source | states |
|---|---|---|
| `HashTables.PushFront` | third-part/zlog-1.2.1/zc_hashtable.c:228-233 | linking an entry in front of its bucket keeps next and prev mutually inverse in every chain and every entry in the bucket its stored hash selects |
| `HashTables.Unlink` | third-part/zlog-1.2.1/zc_hashtable.c:263-273 | taking an entry out by its own links, first, middle or last, leaves well-formed buckets of exactly the other entries |
| `HashTables.Rehash` | third-part/zlog-1.2.1/zc_hashtable.c:120-155 | the bucket array doubles; all entries, and no others, are linked in the buckets the new size selects |
| `HashTables.HashTable.GetEntry` | third-part/zlog-1.2.1/zc_hashtable.c:157-169 | finds an entry exactly when the key is in the map, and its place in its chain |
| `HashTables.HashTable.Get` | third-part/zlog-1.2.1/zc_hashtable.c:171-183 | looks the key up in the abstract map |
| `HashTables.HashTable.Put` | third-part/zlog-1.2.1/zc_hashtable.c:185-238 | the map is updated at the key; links, placement, the element count and 10*nelem <= 13*tab_size + 10 are kept, whether or not the table grows |
| `HashTables.HashTable.Grow` | third-part/zlog-1.2.1/zc_hashtable.c:120-155 | a rehash cannot be seen in the map |
| `HashTables.HashTable.Remove` | third-part/zlog-1.2.1/zc_hashtable.c:240-279 | the key leaves the map; an absent key changes nothing; the invariant is kept |
| `HashTables.HashTable.Clean` | third-part/zlog-1.2.1/zc_hashtable.c:97-118 | the table is empty and well formed |
| `HashTables.HashTable.Begin` | third-part/zlog-1.2.1/zc_hashtable.c:281-294 | the cursor starts at the first entry of the walk, or at none |
| `HashTables.HashTable.Next` | third-part/zlog-1.2.1/zc_hashtable.c:296-313 | the bucket recovered from the stored hash is the right one: the cursor goes to the next entry of the walk |
| `HashTables.FlatVisitsOnce` | third-part/zlog-1.2.1/zc_hashtable.c:281-313 | bucket placement implies that the walk meets every entry exactly once and nothing else |
| `HashTables.HashTable.Foreach` | third-part/zlog-1.2.1/zc_hashtable.h:54-55 | begin and next visit every pair of the map, each key once, and end |
| `HashTables.WalkCounts` | third-part/zlog-1.2.1/zc_hashtable.c:281-313 | the walk is as long as nelem and as the map is large, and carries its pairs |
| `HashTables.ValidMeaning` | third-part/zlog-1.2.1/zc_hashtable.c:97-279 | of every entry of a valid table: next and prev invert each other within its bucket, the first of a bucket is in the array, and key and value are those of the map; nelem counts the keys and the load bound holds |
| `HashTables.FinalAt` | third-part/zlog-1.2.1/zc_hashtable.c:171-279 | after any commands a key has what the last put, remove or clean that concerns it left |
| `HashTables.RepliesAt` | third-part/zlog-1.2.1/zc_hashtable.c:171-183 | every lookup on the way is answered so, in order |
| `HashTables.Run` | third-part/zlog-1.2.1/zc_hashtable.c:97-279 | any run of put, get, remove and clean on any valid table answers as a plain map does, ends with that map's contents and keeps the invariant, for every hash function |
| `HashTables.RunFresh` | third-part/zlog-1.2.1/zc_hashtable.c:39-70 | the same from a new table |
| `Rings.LinkBetween` | utils/quicklist.h:43-52 | a node between neighbours at place k turns the ring of s into that of s with the node inserted at k |
| `Rings.ListLinkBetween` | src/sorm.h:97-104 | the same for the other order of assignments |
| `Rings.AddHead` | utils/quicklist.h:61-64 | prepends |
| `Rings.AddTail` | utils/quicklist.h:74-77 | appends |
| `Rings.ListAddTail` | src/sorm.h:106-109 | appends |
| `Rings.ListAddHead` | src/sorm.h:111-114 | prepends |
| `Rings.Delete` | utils/quicklist.h:86-101 | removes the node at its place and leaves its own links alone |
| `Rings.DeleteInit` | utils/quicklist.h:107-111 | removes the node and makes it a ring of its own |
| `Rings.Pop` | utils/quicklist.h:126-137 | removes and returns the first node, nothing from an empty list |
| `Rings.Splice` | utils/quicklist.h:144-158 | the nodes of a disjoint list come first, in order, then those of the list itself |
| `Rings.Exists` | utils/quicklist.h:212-226 | membership in the sequence the ring reads as |
| `Rings.Count` | utils/quicklist.h:228-242 | the length of that sequence |
| `Rings.Find` | utils/quicklist.h:244-258 | the first node the comparison accepts, or none |
| `Rings.RingLinks` | utils/quicklist.h:43-158 | in a ring next runs through the sequence and back to the head, and prev inverts it |
| `Rings.StepMeaning` | utils/quicklist.h:61-158 | what each command does to the sequence, place by place |
| `Rings.Run` | utils/quicklist.h:43-158 | any run of add, delete, pop and splice leaves a ring with inverse links that reads as the run on a plain sequence, and pops the same values |
| `Rules.OneBitSet` | third-part/zlog-1.2.1/rule.c:634-652 | which bits the shift and mask expressions of the four comparison kinds set, for remainders -1 to 7 |
| `Rules.NewBitmap` | third-part/zlog-1.2.1/rule.c:634-652 | for every comparison and level -1 to 255, bit lv of the map is set exactly when the rule outputs level lv |
| `Rules.NewRule` | third-part/zlog-1.2.1/rule.c:525-652 | a rule as filtering sees it: its map agrees with its decision for every level |
| `Rules.MapByteSet` | third-part/zlog-1.2.1/rule.c:918-948 | every byte of the map agrees with the decision of the output function |
| `Rules.MatchesMeaning` | third-part/zlog-1.2.1/rule.c:963-990 | a category name is matched by "*", by itself, and by "aa_" when it is aa or starts with aa_; by nothing else |
| `Rules.OverlapCovers` | third-part/zlog-1.2.1/category.c:60-66 | the bytewise union of two maps has exactly the levels some rule outputs |
| `Rules.CoversUnique` | third-part/zlog-1.2.1/category.c:60-66 | rules determine the map of a category |
| `Rules.NeedlessExactly` | third-part/zlog-1.2.1/category.h:45-46 | the fast test calls a level needless exactly when no rule would output it |
| `Rules.FittedIsFitting` | third-part/zlog-1.2.1/category.c:88-117 | the fitted rules are exactly those that match, at strictly increasing places, or without any the rule at the last place whose category is "!", or none |
| `Rules.FittingFires` | third-part/zlog-1.2.1/category.c:88-117 | some fitted rule fires if and only if some rule that matches does, or without any that matches the last wastebin does |
| `Categories.Category.OverlapBitmap` | third-part/zlog-1.2.1/category.c:60-66 | the map of the category covers one more rule |
| `Categories.Category.ObtainRules` | third-part/zlog-1.2.1/category.c:68-123 | succeeds if and only if there is memory for the list and every rule that goes into it; then the list has every rule that matches the name, at increasing places, or without any the last "!" rule, and the map covers exactly them; otherwise there are no rules and the map of those gone through |
| `Categories.Category.New` | third-part/zlog-1.2.1/category.c:125-157 | a category fitted with its rules and with nothing pending, if and only if the name is not too long and there is memory |
| `Categories.Category.UpdateRules` | third-part/zlog-1.2.1/category.c:159-183 | rules and map move to the backup; succeeds if and only if there is memory, and then fits the new rules |
| `Categories.Category.CommitRules` | third-part/zlog-1.2.1/category.c:185-201 | the backup is dropped, if there is one |
| `Categories.Category.RollbackRules` | third-part/zlog-1.2.1/category.c:203-228 | rules and map come back from the backup, if there is one |
| `Categories.Category.Output` | third-part/zlog-1.2.1/category.c:232-244 | exactly the fitted rules that output the level, at increasing places; none exactly when the fast test says needless |
| `Categories.RollbackRestoresExactly` | third-part/zlog-1.2.1/category.c:159-228 | an update, successful or failed, then a rollback restores rules and map if and only if the category had rules, or the update failed and the map was already that of the rules gone through |
| `Categories.LostAfterFailure` | third-part/zlog-1.2.1/zlog.c:257-296 | a category with rules, a failed update that is not rolled back, then an update and its rollback: the first rules are gone and those of the last update stay in force |
| `Categories.LostExample` | third-part/zlog-1.2.1/zlog.c:257-296 | a concrete category that loses its rule that way |
| `Categories.CatsOf` | third-part/zlog-1.2.1/category_table.c:68-108 | the table loops meet every category of the table once |
| `Categories.UpdateTable` | third-part/zlog-1.2.1/category_table.c:68-82 | succeeds if and only if there is memory for every category; those before the first failure are updated, that one is left without rules and with its old ones in the backup, later ones are untouched |
| `Categories.CommitTable` | third-part/zlog-1.2.1/category_table.c:84-95 | every category is committed |
| `Categories.RollbackTable` | third-part/zlog-1.2.1/category_table.c:97-108 | every category is rolled back |
| `Categories.UpdateThenRollback` | third-part/zlog-1.2.1/category_table.c:68-108 | an update of the table that succeeds or stops anywhere, then a rollback, restores the rules and the map of every category |
| `Categories.UpdateThenCommit` | third-part/zlog-1.2.1/category_table.c:68-95 | a full update, then a commit, leaves every category fitted with the new rules and nothing pending |
| `Categories.Reload` | third-part/zlog-1.2.1/zlog.c:257-296 | a reload that fails leaves every category as it was if and only if there was memory to update them all, and otherwise each updated, failed or untouched; one that succeeds fits them all |
| `Categories.ReloadWithoutMemory` | third-part/zlog-1.2.1/zlog.c:257-296 | without memory every reload of a table with a category in it fails and leaves one without its rules |
| `Categories.FailedReload` | third-part/zlog-1.2.1/zlog.c:257-296 | a concrete table whose category loses its rule in a failed reload |
| `Categories.FetchCategory` | third-part/zlog-1.2.1/category_table.c:111-141 | finds the category of a name or, if and only if there is memory and the name is not too long, adds one that is fitted with the rules; other names keep theirs |
| `Categories.Run` | third-part/zlog-1.2.1/category_table.c:68-141 | over any run of fetches and reloads up to the first reload whose update fails: it ends there if and only if there is no memory for one of the categories; the table has a category for exactly the names fetched with a fitting length and memory; each outputs by the rules in force, the last that were loaded to the end, and after a failed update each has the old rules, the new ones or none, the old ones being in force or in the backup |
| `Categories.RunFresh` | third-part/zlog-1.2.1/category.h:45-46 | the same from an empty table: with enough memory no update fails, and while none has, the fast test of every fetched category says needless exactly when no rule in force that matches it would output, nor, without any that matches, the last wastebin |
| `Digits.TextDenotes` | third-part/zlog-1.2.1/buf.c:282-345 | the digits of a number denote it |
| `Digits.ValueMeaning` | third-part/zlog-1.2.1/buf.c:282-345 | denoting is positional notation to the base ten or sixteen |
| `Digits.TextShape` | third-part/zlog-1.2.1/buf.c:282-345 | only digits of the base are written, and no leading zero but for zero itself |
| `Digits.ScratchSuffices` | third-part/zlog-1.2.1/buf.c:347-387 | 20 decimal digits hold every 64-bit number, 10 every 32-bit one, 8 hexadecimal digits every 32-bit one |
| `Digits.PaddedDenotes` | third-part/zlog-1.2.1/buf.c:299-308 | zero padding keeps the number and gives exactly the width, or more when the number needs it |
| `Digits.PaddedInjective` | third-part/zlog-1.2.1/buf.c:282-345 | different numbers are written differently at the same width |
| `Digits.Decimal32` | third-part/zlog-1.2.1/buf.c:294-297 | the loop over the scratch array yields the digits without underrunning it |
| `Digits.Decimal64` | third-part/zlog-1.2.1/buf.c:360-387 | both loops, the 32-bit one and the 64-bit one, yield the same digits without underrunning the 20 bytes |
| `Digits.Hexadecimal` | third-part/zlog-1.2.1/buf.c:453-457 | the same in base 16 |
| `Buffers.RenderCut` | third-part/zlog-1.2.1/buf.c:519-559 | keeping what there is room for and laying the marker over gives the rendering of the whole text, also when the buffer was full before |
| `Buffers.RenderSaturates` | third-part/zlog-1.2.1/buf.c:519-559 | once over the limit, later writes change nothing |
| `Buffers.RenderMeaning` | third-part/zlog-1.2.1/buf.c:152-168 | the rendering is the text if it fits, and otherwise, character by character, its first size_max - 1 with the last ones those of the marker |
| `Buffers.ConcatJoin` | third-part/zlog-1.2.1/buf.c:519-559 | the text of several chunks is theirs one after the other |
| `Buffers.Buffer.New` | third-part/zlog-1.2.1/buf.c:98-149 | refuses a zero size, a limit below the size and an overlong marker, and nothing else |
| `Buffers.Buffer.Truncate` | third-part/zlog-1.2.1/buf.c:152-168 | the last characters, as many as the marker has and fit, are those of the marker, and all before them are as they were |
| `Buffers.Buffer.Resize` | third-part/zlog-1.2.1/buf.c:171-219 | room for the increment, or 1 with the buffer at its limit; the contents stay |
| `Buffers.Buffer.Append` | third-part/zlog-1.2.1/buf.c:519-559 | the buffer holds the rendering of everything written; 1 exactly when that is over the limit |
| `Buffers.Buffer.AdjustAppend` | third-part/zlog-1.2.1/buf.c:562-649 | appends the beginning of the text, as much as the one width allows, with blanks up to the other width behind it when left-adjusted and before it when not |
| `Buffers.Buffer.PrintfDec32` | third-part/zlog-1.2.1/buf.c:282-345 | appends the number in decimal, zero-padded to the width; capped output is a prefix under the marker |
| `Buffers.Buffer.PrintfDec64` | third-part/zlog-1.2.1/buf.c:347-436 | the same for 64 bits |
| `Buffers.Buffer.PrintfHex` | third-part/zlog-1.2.1/buf.c:438-516 | the same in hexadecimal |
| `Buffers.Buffer.AppendAll` | third-part/zlog-1.2.1/buf.c:519-559 | any sequence of appends holds the rendering of the concatenation |
| `Buffers.CutsDoNotMatter` | third-part/zlog-1.2.1/buf.c:152-219 | two cuttings of one text, from buffers of any initial size, end with the same contents: the whole text if it fits in size_max - 1, else size_max - 1 characters of which the last are those of the marker and the others those of the text at the same places |
| `HexDumps.WriteLine` | third-part/zlog-1.2.1/spec.c:284-329 | one line of the dump, also when the buffer fills in the middle of it |
| `HexDumps.WriteDump` | third-part/zlog-1.2.1/spec.c:263-344 | the dump ends and leaves what appending max(1, ceil(len/16)) lines after the head would leave |
| `HexDumps.DumpRoundTrip` | third-part/zlog-1.2.1/spec.c:263-344 | the hex columns of a dump of any bytes are read back to exactly these bytes |
| `HexDumps.DumpRecords` | third-part/zlog-1.2.1/spec.c:263-344 | a dump has max(1, ceil(len/16)) lines; each is numbered from 1 in at least ten digits and shows its bytes and, for each, its character if printable, a dot if not, with blanks behind the last |
| `ArrayLists.GrowthReaches` | third-part/zlog-1.2.1/zc_arraylist.c:69-101 | a set past the end finds a cell if and only if the index is below twice the size; index 64 of 32 cells does not |
| `ArrayLists.ArrayList.ExpandInner` | third-part/zlog-1.2.1/zc_arraylist.c:69-85 | the contents stay, the new cells are NULL |
| `ArrayLists.ArrayList.Set` | third-part/zlog-1.2.1/zc_arraylist.c:88-101 | replaces a cell, or adds one at the end over a gap of NULLs; from twice the size on, and only then, it writes the cell behind the grown array |
| `ArrayLists.ArrayList.Add` | third-part/zlog-1.2.1/zc_arraylist.c:103-106 | appends, growing when full |
| `ArrayLists.ArrayList.InsertInner` | third-part/zlog-1.2.1/zc_arraylist.c:109-127 | fills a NULL cell or moves the rest up by one |
| `ArrayLists.ArrayList.SortAdd` | third-part/zlog-1.2.1/zc_arraylist.c:129-143 | inserts before the first element that compares greater |
| `Rotaters.PathInjective` | third-part/zlog-1.2.1/rotater.c:327-333 | different archive numbers have different paths |
| `Rotaters.PathShape` | third-part/zlog-1.2.1/rotater.c:327-333 | the number in an archive path has at least the width, and zeros in front only up to it |
| `Rotaters.GlobMeaning` | third-part/zlog-1.2.1/rotater.c:211-213 | a path matches the pattern when something stands between the prefix and the suffix |
| `Rotaters.CheckMeaning` | third-part/zlog-1.2.1/rotater.c:142-186 | which files are taken for archives and under which number |
| `Rotaters.CheckArchive` | third-part/zlog-1.2.1/rotater.c:142-186 | the number read back from an archive path is the one it was made from |
| `Rotaters.ListsInserted` | third-part/zlog-1.2.1/rotater.c:188-195 | a sorted insertion by file number keeps the list in order, also with equal numbers, and adds just that file |
| `Rotaters.AddArchiveFiles` | third-part/zlog-1.2.1/rotater.c:198-247 | for any directory and any order of the listing, the list holds exactly the files the check accepts, by their numbers |
| `Rotaters.LiveExactly` | third-part/zlog-1.2.1/rotater.c:302-362 | the path of a number is a live file exactly when it is in the list |
| `Rotaters.RollNext` | third-part/zlog-1.2.1/rotater.c:312-343 | one turn of the loop replaces a live file if and only if the next number stands at an earlier place; otherwise the roll goes on |
| `Rotaters.KeepMeaning` | third-part/zlog-1.2.1/rotater.c:319-326 | what a roll keeps is a beginning, of max_count when there are more and a limit |
| `Rotaters.RollFiles` | third-part/zlog-1.2.1/rotater.c:302-362 | whatever the numbers of the archives a of a log b, no rename replaces a live file if and only if no place clashes, and then they become take([b] + a, max_count) numbered from 0, all of them when max_count <= 0 |
| `Rotaters.ClashNumbers` | third-part/zlog-1.2.1/rotater.c:312-343 | among numbered archives a place clashes if and only if it is renamed and its next number stands at an earlier place |
| `Rotaters.NoGapNoClash` | third-part/zlog-1.2.1/rotater.c:302-362 | archives 0 to n - 1 never clash |
| `Rotaters.GapClash` | third-part/zlog-1.2.1/rotater.c:302-362 | archives 0, 3 and 4 clash |
| `Rotaters.Roll` | third-part/zlog-1.2.1/rotater.c:443-483 | the same with the list read from the directory |
| `Rotaters.RollRun` | third-part/zlog-1.2.1/rotater.c:302-362 | over any run from any archives, nothing is ever overwritten if and only if the files as first listed do not clash, and then the archives are the logs, newest first, then the old ones in that listing, as many as may be kept |
| `Rotaters.NextIsNew` | third-part/zlog-1.2.1/rotater.c:249-299 | the new number exceeds every existing one |
| `Rotaters.NextMeaning` | third-part/zlog-1.2.1/rotater.c:270-280 | the new number is the least that exceeds every existing one and is not below their count |
| `Rotaters.LatestMeaning` | third-part/zlog-1.2.1/rotater.c:257-268 | what a sequence rotation keeps is an end, of max_count when there are more and a limit |
| `Rotaters.DropOldest` | third-part/zlog-1.2.1/rotater.c:257-268 | the archives kept are those with the highest numbers |
| `Rotaters.SeqFiles` | third-part/zlog-1.2.1/rotater.c:249-299 | whatever the directory holds, the newest max_count archives stay and the log follows them under a number that was free |
| `Rotaters.SeqRun` | third-part/zlog-1.2.1/rotater.c:249-299 | over any run from any archives, they, in some listing by number, and the logs stay in order, the newest max_count + 1 of them when there is a limit; nothing is ever overwritten |
| `Quoting.RoundTrip` | src/sorm.c:956-990 | undoubling a doubled string gives it back |
| `Quoting.CountedExactly` | src/sorm.c:964-970 | the counted length is the doubled length if and only if the string does not start with a quote; otherwise it is one short |
| `Quoting.CountFixed` | src/sorm.c:959-971 | what the counting loop arrives at |
| `Quoting.CopyBack` | src/sorm.c:978-985 | the backward loop doubles every quote, also when source and destination are one buffer; it underruns the buffer exactly when the string starts with a quote |
| `Quoting.FixString` | src/sorm.c:956-990 | for strings not starting with a quote, TOO_LONG exactly when the doubled string and its terminator do not fit, and otherwise the buffer holds them; for the others exactly when the write before the buffer happens and what the buffer then holds |
| `Statements.EachIsJoin` | src/sorm.c:1859-1876 | text with a separator after every part is the joined text and one separator, which is what the code cuts off |
| `Statements.HasValue` | src/sorm.c:1803-1817 | whether any column has a value |
| `Statements.PrintColumns` | src/sorm.c:1859-1875 | the loop writes exactly the chosen columns, and fails exactly when they do not fit |
| `Statements.BindColumns` | src/sorm.c:1917-1932 | the k-th bind call is for the k-th chosen column |
| `Statements.ChosenExactly` | src/sorm.c:1859-1862 | the chosen columns are exactly the valued ones, for the tests of an update the unique among them, each once and in order |
| `Statements.Save` | src/sorm.c:1819-1932 | the statement is the unbounded rendering, refused exactly when that is too long; read back it names the table, exactly the valued columns in order and a placeholder for each, and placeholder k is bound to the k-th of them |
| `Statements.Delete` | src/sorm.c:1998-2079 | the same for delete: read back, its clause is one test for each valued column, in order, joined by AND and nothing else; the separator that is cut off again must have fitted |
| `Statements.Update` | src/sorm.c:3553-3679 | the same for update: read back, assignments to the valued columns and tests of the valued unique ones joined by AND, numbered through; the overrun of the buffer happens exactly when the last comma still fits and " WHERE" does not |
| `Statements.Text.PrintWithin` | src/sorm.c:3607-3609 | an snprintf leaves the buffer exactly when its terminator, placed by the bound it is given, does |
| `Statements.OverrunRows` | src/sorm.c:3605-3614 | concrete rows: with one value in a column a, table names of 1003 to 1007 characters overrun and no others |
| `Statements.UpdateMeant` | src/sorm.c:3605-3636 | what the loops write, less the last four characters, is the intended text if and only if some unique column has a value |
| `Statements.CutInsideWhere` | src/sorm.c:3605-3636 | a concrete row without a unique column, and what becomes of its statement |
| `Statements.DeleteLinesUp` | src/sorm.c:2017-2079 | the k-th placeholder of the text follows the name of the column bound to k |
| `Statements.DeleteReads` | src/sorm.c:2026-2052 | a reader with the literal keywords and separators gets back the table and the tested columns |
| `Statements.UpdateLinesUp` | src/sorm.c:3569-3679 | the same across SET and WHERE |
| `Statements.UpdateReads` | src/sorm.c:3579-3636 | the same for the SET and WHERE lists |
| `Statements.InsertCounts` | src/sorm.c:1843-1932 | as many placeholders as bound columns |
| `Statements.InsertLinesUp` | src/sorm.c:1843-1932 | the k-th name of the column list is that of the column bound to placeholder k |
| `Statements.InsertReads` | src/sorm.c:1850-1904 | the same for the two lists of an insert |
| `SelectColumns.Resolve` | src/sorm.c:678-775 | from the text of the name: "*" is everything, n.* all columns of the first table named n, n.col its first column of that name, col the first one of that name in the first table that has it; an unknown table is reported and an unknown column stops |
| `SelectColumns.MeansUnique` | src/sorm.c:678-775 | a name means one of these only |
| `SelectColumns.ExpandExactly` | src/sorm.c:845-885 | which columns a target selects, table by table and column by column, each once |
| `SelectColumns.SelectedCounts` | src/sorm.c:873-883 | columns_num is the number of columns with a position |
| `SelectColumns.Selection.constructor` | src/sorm.c:817-825 | no column has a position |
| `SelectColumns.Selection.SelectAllOf` | src/sorm.c:862-872 | all columns of one table are next in the list, and the index and counts agree |
| `SelectColumns.Selection.SelectAll` | src/sorm.c:848-861 | all columns of all tables |
| `SelectColumns.Selection.SelectOne` | src/sorm.c:873-883 | one column is next; a column named again keeps its first position |
| `SelectColumns.Trim` | src/sorm.c:298-330 | the item without the blanks at both ends, for any item; the character before the text is read exactly when the first item is all blank |
| `SelectColumns.TrimmedMeaning` | src/sorm.c:298-330 | what is cut off are blanks, and no end of what is left is one |
| `SelectColumns.ItemsMeaning` | src/sorm.c:830-900 | the items have no commas, and with commas between them they are the text |
| `SelectColumns.Parse` | src/sorm.c:790-902 | for every text over any tables, how it ends; if with its last item, each position of the index holds exactly its column in the expanded select list, a column without a position is not in it, and columns_num counts the selected columns |
| `SelectColumns.BlankStarts` | src/sorm.c:298-330 | concrete texts for which the character before the list is read |
| `SelectColumns.PositionsDistinct` | src/sorm.c:790-902 | different columns have different positions |
| `SelectColumns.ReadColumnIsRead` | src/sorm.c:341-466 | a null and only a null gives the null mark; any other value gives, by the kind of the member, the engine's value in that form, or is refused exactly for an unknown kind, other memory of a text or blob, or a length over that of a member of fixed size |
| `SelectColumns.IsReadUnique` | src/sorm.c:341-466 | these determine what is read |
| `SelectColumns.Filling` | src/sorm.c:915-944 | a row has what each column reads, or the error of the first column that is refused |
| `SelectColumns.FillRow` | src/sorm.c:915-944 | members without a position are left alone, the others carry the value at their position in the form of their kind; the first refused value ends the row with its error |
| `SelectColumns.FilledExactly` | src/sorm.c:790-944 | each member is read from its own column if that is in the list, and left alone if not |
| `SelectColumns.ReadRow` | src/sorm.c:790-944 | from the text of the list to the filled row: exactly the columns the list stands for are read, each into its own member, and a failure is that of one of them |
| `Selects.ParseRowExactly` | src/sorm.c:915-944 | a result row parses if and only if every listed column of the table can be stored |
| `Selects.StorableExactly` | src/sorm.c:915-944 | a result parses if and only if every listed column of every table that takes part can be stored in every row |
| `Selects.ResultMeaning` | src/sorm.c:2751-2759 | a select succeeds exactly when the engine does not fail and no listed value of a row it reads is refused |
| `Selects.Select` | src/sorm.c:2435-2877 | from the text of the list to the rows: every reader delivers for every table that takes part the rows of the database, in order, with exactly its listed columns; an error, exactly when a value cannot be stored or the engine fails, delivers nothing, and so does an empty result |
| `Selects.SelectSome` | src/sorm.c:2435-2661 | the same with a limit: the first rows, of which alone the values have to be stored, and no failure of the engine behind them |
| `Rows.RowList.Add` | src/sorm.h:106-109 | a row goes to the end of its list |
| `Rows.RowList.Copy` | src/sorm.c:73-98 | the array holds the rows of the list in order, exactly as many |
| `Rows.AddRow` | src/sorm.c:2706-2741 | one result row goes to the list of every selected table, or an error says that it does not parse |
| `Rows.SelectAllList` | src/sorm.c:2663-2774 | all rows of the result for every selected table, in order; errors and the empty result leave no list |
| `Rows.SelectSomeList` | src/sorm.c:2542-2661 | the first min(n, total) rows; an engine failure behind them is not met |
| `Rows.SelectSomeArray` | src/sorm.c:2435-2540 | the same in arrays |
| `Rows.SelectAllArray` | src/sorm.c:2829-2877 | all rows in arrays, NOEXIST for an empty result |
| `Rows.Iterator.Next` | src/sorm.c:3934-3994 | the row objects of the next result row for all selected tables; has_more tells whether there was one |
| `Rows.Iterator.Drain` | src/sorm.c:3934-3994 | an iterator asked to its end delivers every result row once, in order |
| `Rows.ListAndArray` | src/sorm.c:2435-2774 | lists and arrays filled from the same result hold the same rows |
| `Rows.LimitedList` | src/sorm.c:2542-2774 | a limited list is the beginning of the unlimited one |
| `Rows.LimitedMeaning` | src/sorm.c:2484-2490 | the limited rows are a beginning, of the limit when there are more |
| `Rows.OutcomeMeaning` | src/sorm.c:2751-2759 | a reader succeeds exactly when every row parses and the engine does not fail, and reports a row that does not parse first |
| `Rows.JoinedProjects` | src/sorm.c:3934-3994 | the k-th row of an iterator holds, for each table, the k-th row of its list: all from the same result row |
| `Rows.ReadAll` | src/sorm.c:2435-2877 | for any result, all-list, all-array and a drained iterator end the same and deliver the same rows in the same order, and nothing for an error or an empty result |
| `Rows.ReadSome` | src/sorm.c:2435-2661 | for any result and any limit, both limited readers end the same and deliver the first rows, whatever comes behind them, and nothing for an error or no rows; when the unlimited reader succeeds these are the first of what it delivers |
| `Transactions.Connection.BeginTransaction` | src/sorm.c:3113-3174 | counter, engine, result and whether the lock is released after a begin, for every engine answer: released exactly after an outermost BEGIN that failed while its finalize succeeded |
| `Transactions.Connection.CommitTransaction` | src/sorm.c:3186-3263 | the same for commit: released exactly after an outermost one whose finalize succeeded |
| `Transactions.Connection.RollbackTransaction` | src/sorm.c:3265-3337 | the same for rollback, which is counted as done whenever its finalize succeeds |
| `Transactions.NextConsistent` | src/sorm.c:3113-3337 | a call keeps "counter >= 0, in a transaction exactly when positive, commands alternate" if and only if the engine's answers are safe for it; an honest finalize makes them so |
| `Transactions.HonestRun` | src/sorm.c:3113-3337 | the invariant over every run with arbitrary failures, when finalize reports an error exactly when the step failed |
| `Transactions.ConsistentExactly` | src/sorm.c:3113-3337 | a run is consistent at every point if and only if every call of it is safe |
| `Transactions.UnsafeCalls` | src/sorm.c:3247-3256 | concrete answers after which counter and engine disagree |
| `Transactions.CounterBalances` | src/sorm.c:3113-3337 | the counter is the number of successful begins minus that of successful ends |
| `Transactions.InnerInvisible` | src/sorm.c:3168-3173 | a nested run of any depth does not reach the engine |
| `Transactions.NestedIsOne` | src/sorm.c:3113-3337 | a balanced run shows the engine one BEGIN and one COMMIT or ROLLBACK |
| `Transactions.Connection.Run` | src/sorm.c:3113-3337 | the same invariant for a connection driven by any calls with arbitrary failures whose finalize reports an error exactly when the step failed |
| `Locks.SharedLock.SqliteStep` | src/sorm.c:469-501 | the lock is afterwards what it was; the engine is called again only while busy and at most ten times |
| `Locks.NextAccounted` | src/sorm.c:168-190 | every event but a release on a transaction path keeps lock and holders in agreement |
| `Locks.TogetherOnly` | src/sorm.c:469-501 | over every interleaving of any number of connections, with or without transactions and under either lock, two are inside together only as readers of a read-write lock, or with an open transaction of one of them, or after a release on a transaction path; none calls the engine more than ten times |
| `Locks.Exclusion` | src/sorm.c:168-190 | over every interleaving of any number of connections without explicit transactions, two are inside the engine together only as readers of a read-write lock; none calls it more than ten times |
| `Locks.NothingKept` | src/semaphore.c:37-90 | with everyone outside again and no release on a transaction path, the lock is what it was at the start |
| `Locks.Progress` | src/sorm.c:469-501 | whoever is inside can go on, and with no one inside anyone can enter |
| `Locks.Balance` | src/sorm.c:3113-3337 | under either lock, what it has to give plus its holders grows by one with each begin, commit or rollback that releases it, and by nothing else |
| `Locks.SharedExactly` | src/sorm.c:469-501 | with everyone outside, two connections can get inside together under the semaphore if and only if one of them has an open transaction or a transaction path has released it |
| `Locks.SharedReadersExactly` | src/sorm.c:168-190 | under the read-write lock, while nothing was released that way, if and only if both read or one of them has an open transaction |
| `Locks.SharedExample` | src/sorm.c:3252-3254 | one begin and commit, or begin and rollback, leave the semaphore at 2 |
| `Locks.OpenExample` | src/sorm.c:477-480 | one begin alone lets two connections inside, with nothing released |

## Left out

- SQLite: prepare, bind, step, column and finalize are parameters or an abstract engine; `_sqlite3_finalize` is one call.
- `zc_hashtable_str_hash`: the table is proved right for every hash function.
- Allocation failures, custom allocators and memory release, but for those a category update can meet; `sorm_new` and `malloc` always succeed in the readers.
- Key and value destructors of the hash table; `put` replaces a key pointer by one to an equal key, which the model does not distinguish.
- `zlog_buf_vprintf`: it depends on `vsnprintf`, and its capped branch measures room from the start of the buffer.
- Parsing of archive paths, rules and configuration lines, `glob`, `stat`, file locks and time: the rotater gets a directory map and a parsed prefix, width and suffix; the suffix does not start with a digit, and no archive path is that of the log. Numbers in archive paths are read as plain digits, without the sign and blanks `sscanf` would take.
- `zlog_reload` but for its effect on the categories; the update of the thread buffers is a parameter.
- Writing of events: a rule that fires is recorded, not executed.
- `_get_number_from_columns_name`, text generators, `sorm_to_string` and error strings.
- Creation of a semaphore in `sem_p` and `sem_v`; the semaphore starts at 1. SEM_UNDO and interrupted calls.
- Types of bound values; binding never fails. Conversions between the engine's column functions are not modelled: a result value comes with what each of them would return.
- Thread buffers, records, pipes and syslog.
- Categories.Category.OverlapBitmap: bitmaps are sequences held in fields rather than arrays inside the structure, so aliasing of their bytes is not captured.
- SelectColumns.Parse: items are slices of the text where the source writes terminators into a copy, and the index is a sequence in a field. An unknown column name stops the program.
- Statements.Update: what becomes of the memory behind the buffer after an overrun is not modelled.
- Quoting.FixString: the cell before the buffer, which an underrun writes, is not part of the model.
- ArrayLists.ArrayList.Set: the cell behind the array, which an index of twice the size or more writes, is not part of the model.
- Rotaters.CheckArchive: numbers in archive paths are unbounded; the source reads them into an int, subtracts them in `zlog_file_cmp` and adds 1 for the next one, which is right for numbers below 2147483647 only.
- Rows.Iterator.Drain: the loop is that of a caller; the source has only its body.
- Rotaters.RollFiles: a failing rename or unlink is modelled only as far as the directory can cause it; permissions and the like are not.
- Locks.Exclusion: covers runs of steps outside transactions; Locks.TogetherOnly covers all runs. The engine calls of begin, commit and rollback themselves count as one event.
- Locks.Balance: releasing a read-write lock that the caller does not hold is undefined in POSIX; the model then takes away one hold.
