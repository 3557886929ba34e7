# Models of Glidix user-space algorithms

Dafny models of the algorithms with state inside the Glidix installer, its GUI
and GL libraries and its small GUI programs, and proofs about them. Code that
relinks nodes, fills buffers or updates counters is a class whose methods do the
same assignments; what such a method computes is stated against functions on
values, and the lemmas are about those functions. Heap records that the program
allocates and frees one by one are the entries of a map from addresses, so that
following a pointer carries the proof that the record is allocated.

| file | models |
|---|---|
| `LinkedLists.dfy` | doubly linked lists in an explicit memory, shared by the list owners below |
| `CArith.dfy` | C's integer division, and bounds on quotients |
| `PartitionGeometry.dfy`, `Gpt.dfy`, `PartitionList.dfy`, `MountOrder.dfy`, `Crc32.dfy` | `gxsetup/partition.c`: the area list, loading and writing a GPT (section 5.3 of the UEFI specification), mount order, CRC-32 |
| `HandlerDispatch.dfy`, `EventQueue.dfy` | `libgwm/libgwm.c`: the re-entrant handler list and the event queue, each as a system of atomic steps |
| `Minesweeper.dfy` | `guiapps/minesweeper.c`: flood fill, counters, set-up of a board |
| `Utf8.dfy`, `TextPen.dfy` | `libddi/libddi.c`: the UTF-8 reader and writer (section 3 of RFC 3629, section 2 of RFC 2279), and how the pen cuts a text into segments |
| `TreeRows.dfy`, `TreeMemory.dfy`, `TreeEdits.dfy`, `DataTree.dfy` | `libgwm/datactrl.c`: the tree widget, as a shape, in memory, under addition and deletion, and the control itself |
| `LayoutArea.dfy`, `CellTable.dfy`, `GridLayout.dfy`, `Tracks.dfy`, `BoxLayout.dfy`, `FlexLayout.dfy` | the layout engines of `libgwm` |
| `GlNames.dfy` | `libgl`: the trie of object names, the name allocator, buffer bindings |
| `Mystic.dfy`, `Tetris.dfy`, `Calculator.dfy` | the small programs of `guiapps` |

The invariant of a class is its predicate `Valid()`. The constructor, or the method
that resets the program, establishes it, and every method that stands for a whole step
of the program keeps it, so what it says holds in every state between steps. The other
methods are parts of a step, called only by it, and state what they leave instead:

- `Drive`: `SplitArea`, `EngulfNeighbour`, `EngulfNext`, `EngulfPrev`
- `Toolkit`: `RemoveHandler`; `System`: `Append`
- `DataCtrl`: `LinkBefore`, `LinkAfter`, `LinkTopChild`, `LinkBottomChild`, `Attach`,
  `DeleteNodeRecur`, `TakeOut`
- Minesweeper's `Game`: `TryUncover`, `EmptyFieldsFill`, `CountOne`, `CountMines`,
  `Shuffle`, `CountAll`; Tetris's `Game`: `SetRow`, `ShiftDown`, `CheckRows`, `Lock`
- `Context`: `SetError`, `SetObjectOf`, `TakeOff`, `DeleteBuffer`; `Grid`:
  `MarkRectTaken`; `Flex`: `GetColInfo`, `GetRowInfo`

Places where the code does not do what it is for, each with the exact condition:

- `splitArea` leaves the `prev` of the node behind the split area pointing at the
  freed node; the list it leaves is sound exactly if that area was the last
  (`PartitionList.SplitAreaLeavesStalePrev`; `StalePrevAfterSplit` is an example).
  `Drive` makes the missing assignment.
- `GWM_DATA_ADD_TOP_CHILD` does not set the `prev` of the old first child; the tree
  is sound exactly if there was none (`TreeEdits.TopChildLeavesStalePrev`;
  `StalePrevAfterTopChild` is an example). `DataCtrl` makes the missing assignment.
- The load loop takes the offset of an entry that starts in the first megabyte for
  2^64 - 1; it has the right offset exactly from there on (`Gpt.OffsetIsRight`).
- A partition's use and mount point survive a write exactly under
  `Gpt.Survives` (`Gpt.SurvivesIsExact`).
- The editor accepts tables whose root is not mounted first; the root is first
  exactly if no other one-character mount point stands on an earlier partition
  (`MountOrder.RootFirst`, `MountOrder.RootNotAlwaysFirst`).
- `newPartTable` makes a table that fits the disk exactly from 3 MiB on
  (`Gpt.NewTableSound`).
- The pen skips one byte where it means to skip one character. That is the same
  exactly for ASCII characters (`TextPen.OneByteFurther`), so a blank mask over
  other text would cut a character in two; with masks that are not blank it
  cannot happen (`TextPen.OrdinaryMasks`).
- The UTF-8 writer loses code points from 2^41 on: what it writes then has no first
  octet and reads as a number below 64 (`Utf8.RoundTripIsExact`). It stays in its
  buffer exactly below 2^42 and from 2^46 to 2^48 - 1 (`Utf8.BufferIsExact`).
- The UTF-8 reader accepts octets that are no form: it does not look at the two top
  bits of those behind the first (`[0xC2, 0x41]` is 129), and takes a continuation
  octet alone for a code point (`[0x81]` is 1; `Utf8.ReadsWhatIsNoForm`). These are
  exactly the ones that are as few octets as the form (`Utf8.ShortestForm`).
- A word is cut in two exactly if it fills its line from the start of a segment, by
  `TextPen.CutsWord`. The width reported is that of the characters drawn exactly
  unless a word is cut and its next character makes a difference
  (`TextPen.WordsStayWhole`; `TextPen.CutWordIsTooWide` is an example).
- A grid centres a child at its preferred size even if that is below its minimum. Of a
  grid's minimum size a child gets its own minimum, less at most one pixel for each
  cell after the first, exactly unless it is centred and prefers less than that
  (`GridLayout.MinimumIsEnough`; `GridLayout.CentredGetsPreferred` is an example).
- A flex layout centres a child of its minimum size even in a track that is shorter.
  A child lies in its track exactly unless it is centred and its minimum exceeds the
  track (`FlexLayout.MinimumIsEnough`); at the layout's own minimum size centred
  children can stick out of the area and overlap (`FlexLayout.CentredMayStickOut`).
- A new Tetris piece is drawn from too few columns if it extends to the left of its
  middle: it touches the right edge exactly if it does not (`Tetris.RightEdgeIsMissed`).
- The calculator consumes input that is no expression. A scan of the tokens alone
  says which: it consumes exactly what the scan does not refuse
  (`Calculator.AcceptedIsScanned`). That is the expressions, with any number of their
  last brackets left open (`Calculator.CleanIsExpression`), and whatever is cut: behind
  an operator at the same level or further out, a token that starts no operand makes it
  skip all the rest (`Calculator.AcceptedThoughMalformed`, `Calculator.RestIsSkipped`).
  What is cut is not always worth zero: `x + y *` gives `x + 0`
  (`Calculator.DanglingIsNotZero`). In every arithmetic it is exactly if the level that
  is cut has one kind of operator and the levels around it have none
  (`Calculator.ZeroIsScanned`).

## Model

| member | source | states |
|---|---|---|
| PartitionGeometry.UniqueTiling | gxsetup/partition.c:198-288 | two area lists with no empty area and no two adjacent unallocated ones are equal if they cover the same space with the same partitions |
| PartitionGeometry.SplitIsTiling | gxsetup/partition.c:198-288 | splitting an unallocated area keeps the total size and such a tiling, and adds exactly the new partition at its offset |
| PartitionGeometry.DeleteIsTiling | gxsetup/partition.c:861-911 | deleting a partition and merging keeps the total size and the tiling, and removes exactly that partition |
| PartitionGeometry.DeleteUndoesSplit | gxsetup/partition.c:861-911 | deleting a partition just made gives back the table there was |
| PartitionGeometry.ScanStopsInHole | gxsetup/partition.c:406-420 | the area at which the load scan stops is unallocated and holds the whole entry, if the entry's space is clear |
| PartitionList.SplitAreaLeavesStalePrev | gxsetup/partition.c:266-281 | the list as `splitArea` and its caller leave it is sound if and only if the split area was the last |
| PartitionList.StalePrevAfterSplit | gxsetup/partition.c:266-281 | a list of two areas for which it is not sound |
| PartitionList.RepairedSplit | gxsetup/partition.c:198-288 | with the missing assignment the list is sound and spells the split table |
| PartitionList.EngulfLinks | gxsetup/partition.c:866-908 | swallowing a neighbour leaves a sound list without it |
| PartitionList.DeleteInSteps | gxsetup/partition.c:861-911 | the two swallowing steps in a row are the deletion |
| PartitionList.Drive.SplitArea | gxsetup/partition.c:198-288 | the nodes made, linked and freed, field by field; a partition is returned unchanged |
| PartitionList.Drive.Replace | gxsetup/partition.c:406-426 | the drive's list holds the split table, and stays within its header: size, number of entries, and partitions that can be written |
| PartitionList.Drive.CreatePartition | gxsetup/partition.c:1077-1111 | a partition at the start or the end of an unallocated area, exactly that one added; refused, with nothing changed, if and only if every entry is used or the area has not that size |
| PartitionList.Drive.CountPartitions | gxsetup/partition.c:670-684 | the number of partitions, which the limit is about |
| PartitionList.Drive.EditPartition | gxsetup/partition.c:845-938 | exactly the use, format flag or mount point of one partition changes, as the key says |
| PartitionList.EditIsExact | gxsetup/partition.c:845-938 | every key changes the one field it is for, and a typed character can be erased again |
| PartitionList.Drive.DeletePartition | gxsetup/partition.c:861-911 | the list after the deletion holds the merged table, within its header |
| PartitionList.Drive.LoadEntry | gxsetup/partition.c:398-426 | an entry on clear space is placed at its own offset and size, with the use and mount point its type, attribute and name say, or passed over if it ends behind the usable space; the running offset stays non-negative |
| PartitionList.Drive.LoadTable | gxsetup/partition.c:384-428 | loading disjoint entries in any order makes a tiling of the disk with exactly those that fit it, each with the fields of its entry, whatever unused addresses malloc returns, freed ones among them |
| PartitionList.Drive.WriteTable | gxsetup/partition.c:1224-1262 | the entry array has room, starts with one entry a partition, in list order and with the fields of that partition, and is zero behind |
| PartitionList.WriteThenLoad | gxsetup/partition.c:384-428 | for every drive, loading what was written from its table, on a drive with the same header, gives the same areas at the same places with the same partition ids, each as `Reloaded` says |
| PartitionList.EntryIsLoaded | gxsetup/partition.c:384-428 | every used entry that fits the disk is an area at the entry's offset and of its size |
| PartitionList.LoadedIsEntry | gxsetup/partition.c:384-428 | every partition of a loaded table is a used entry that fits the disk; all else is unallocated |
| PartitionList.LoadOrderIrrelevant | gxsetup/partition.c:384-428 | the loaded list does not depend on the order of the entries |
| Gpt.NarrowUndoesWiden | gxsetup/partition.c:1240-1250 | a mount point written as 16-bit units reads back as the same bytes, also above 127 |
| Gpt.PartIsLoaded | gxsetup/partition.c:206-237 | what an entry loads as, field by field: GXFS for two types only; mounted at / for the root's; at the bytes of the name for the other if bit 49 is set, and nowhere if not |
| Gpt.EntryIsWritten | gxsetup/partition.c:1228-1257 | what is written for a partition, field by field |
| Gpt.ReadBack | gxsetup/partition.c:1224-1262 | an entry written for a partition loads at the same offset and size, as `Reloaded` says |
| Gpt.SurvivesIsExact | gxsetup/partition.c:1224-1262 | size and partition id survive a write always; use and mount point if and only if the stated condition on the partition holds |
| Gpt.SurvivesInTable | gxsetup/partition.c:917-938 | of that condition the length of the mount point always holds in the tables of a drive |
| Gpt.EntryMapUnordered | gxsetup/partition.c:384-428 | the partitions an entry array stands for depend only on which used entries it has |
| Gpt.OffsetIsRight | gxsetup/partition.c:398-402 | the offset worked out for an entry is the right one if and only if it starts behind the first megabyte |
| Gpt.FlushLoadable | gxsetup/partition.c:1224-1262 | what is written is disjoint, aligned and in range, so it can be loaded |
| Gpt.LoadedIsReloaded | gxsetup/partition.c:1220-1294 | any tiling of the space with exactly the partitions of the written entries is the old table, each partition as `Reloaded` says |
| Gpt.FlushSlot | gxsetup/partition.c:1224-1262 | the entry of a partition is at the number of partitions before it |
| Gpt.NewTableSound | gxsetup/partition.c:627-666 | a new table has space, and no more than the disk, if and only if the disk has 3 MiB |
| Gpt.LayoutIsSound | gxsetup/partition.c:1220-1294 | all entries are in the usable range, disjoint, and clear of both headers and both entry arrays |
| MountOrder.Installer.FindShortest | gxsetup/partition.c:1330-1373 | the scan finds the mounted partition that comes first, with the number of its table entry, or that there is none |
| MountOrder.Installer.BuildFstab | gxsetup/partition.c:1328-1393 | the loop ends and lists exactly the mounted partitions, in order, clearing their mount points |
| MountOrder.Installer.Unmount | gxsetup/partition.c:1566-1579 | unmounting goes through the list in reverse |
| MountOrder.ParentsFirst | gxsetup/partition.c:1328-1393 | a mount point that is a proper prefix of another comes before it, and a directory before those below it |
| MountOrder.ListedOnce | gxsetup/partition.c:1328-1393 | no partition is listed twice |
| MountOrder.EntryIsExact | gxsetup/partition.c:1374-1391 | a line is the mount point under /mnt with a slash at its end, one if it had one |
| MountOrder.DeviceIsEntry | gxsetup/partition.c:1224-1262 | the device number of a line is the index of the entry written for that partition |
| MountOrder.RootFirst | gxsetup/partition.c:947-1026 | in a table the editor accepts the root is mounted first if and only if no other one-character mount point is on an earlier partition |
| MountOrder.RootFirstOfPaths | gxsetup/partition.c:947-1026 | so it is if all mount points are absolute paths |
| MountOrder.RootNotAlwaysFirst | gxsetup/partition.c:968-1026 | an accepted table whose root is mounted second |
| Crc32.ComputeCrc32 | gxsetup/partition.c:181-196 | the loops compute the register run over the message |
| Crc32.RunIsRemainder | gxsetup/partition.c:181-196 | the register is the remainder by the generator of section 8.1.1.6.2 of ITU-T V.42, in reflected form, of the message times x^32 plus the initial ones times x to its length |
| Crc32.FedIsDividend | gxsetup/partition.c:181-196 | bytes fed one by one come to that dividend |
| Crc32.TurnDivides | gxsetup/partition.c:186-192 | one turn of the inner loop is one step of that division |
| Crc32.CrcAffine | gxsetup/partition.c:181-196 | the CRC is affine over exclusive or of messages of one length |
| Crc32.ResidueIsConstant | gxsetup/partition.c:181-196 | a message followed by its CRC, low byte first, has CRC 0x2144DF1C |
| Crc32.BurstDetected | gxsetup/partition.c:181-196 | messages of one length that differ within four bytes in a row have different CRCs |
| HandlerDispatch.Toolkit.PushEventHandler | libgwm/libgwm.c:731-742 | the new entry is at the front with one reference |
| HandlerDispatch.Toolkit.CreateWindow | libgwm/libgwm.c:430-517 | a new window with its default handler at the front |
| HandlerDispatch.Toolkit.BeginDispatch | libgwm/libgwm.c:744-750 | an activation starts at the head of the list |
| HandlerDispatch.Toolkit.LoopTurn | libgwm/libgwm.c:744-781 | one turn of the dispatch loop, on the fields of entry, window and event: end of the list; redirect of the focus; call if and only if the window is the one aimed at and of the session, or focus is being taken away; or on to the next entry |
| HandlerDispatch.Toolkit.CallbackReturns | libgwm/libgwm.c:756-772 | the reference is dropped, and the dispatch ends or goes on, as status and window say |
| HandlerDispatch.Toolkit.DestroyWindow | libgwm/libgwm.c:549-593 | under any nesting: the window's handlers leave the list, and a record in use stays until its callback returns |
| HandlerDispatch.TurnKeeps | libgwm/libgwm.c:744-781 | no turn stands on a freed record or a dead window, and reference counts stay links plus activations inside |
| HandlerDispatch.ReturnKeeps | libgwm/libgwm.c:756-772 | the same when a callback returns |
| HandlerDispatch.SweepDone | libgwm/libgwm.c:565-590 | the sweep of a destroyed window keeps all counts, all other entries and all activations sound |
| HandlerDispatch.NoLeak | libgwm/libgwm.c:544-547 | with no activation left, exactly the linked records are allocated, each with one reference |
| HandlerDispatch.DispatchBounded | libgwm/libgwm.c:744-781 | a dispatch calls no entry twice and none pushed after it began, and no more than there were then |
| HandlerDispatch.CallsOwnWindow | libgwm/libgwm.c:762 | every entry a dispatch has called was, when called, one of the window aimed at, and of its session unless the event took the focus away |
| HandlerDispatch.WalkIsComplete | libgwm/libgwm.c:744-781 | a dispatch that runs off the list has called every matching handler that was there from its start |
| EventQueue.System.ProducerLock | libgwm/libgwm.c:173 | a producer gets the mutex only when nobody holds it |
| EventQueue.System.ProducerLink | libgwm/libgwm.c:168-188 | the event goes to the end of the queue |
| EventQueue.System.ProducerUnlock | libgwm/libgwm.c:186 | the mutex is free, and a post is owed |
| EventQueue.System.ProducerPost | libgwm/libgwm.c:187 | the semaphore goes up by one |
| EventQueue.System.Wait | libgwm/libgwm.c:611 | the consumer takes a token from a positive semaphore |
| EventQueue.System.Take | libgwm/libgwm.c:614-618 | the consumer never takes from an empty queue, and takes the oldest event |
| EventQueue.System.Decide | libgwm/libgwm.c:620-686 | the event is dropped if and only if the next one has its type, and it is a motion, or an update, resize request or of a type with bit 26 for the same window |
| EventQueue.System.WaitForNext | libgwm/libgwm.c:626-627 | under the mutex the consumer takes the token of the next event |
| EventQueue.System.Return | libgwm/libgwm.c:688-691 | what is returned is the event decided on, with the mutex free |
| EventQueue.InnerWaitIsWoken | libgwm/libgwm.c:620-686 | the wait under the mutex can always be woken: the semaphore is positive or a producer has only its post to do |
| EventQueue.BlockedMeansEmpty | libgwm/libgwm.c:609-616 | no wake-up is lost: a consumer that is stuck has nothing to read |
| EventQueue.NeverStuck | libgwm/libgwm.c:609-691 | some thread can move unless nobody sends anything |
| EventQueue.DroppedIsRepresented | libgwm/libgwm.c:620-686 | behind every dropped event stands a run of its type, and of its window except for motion, that ends in one delivered or still undecided |
| EventQueue.OthersAreDelivered | libgwm/libgwm.c:620-686 | in every run an event of any other type is delivered |
| EventQueue.PickInOrder | libgwm/libgwm.c:609-691 | the delivered events are a subsequence of those sent, in order |
| Minesweeper.GuardIsGeometry | guiapps/minesweeper.c:137-232 | the index tests let through an offset if and only if its cell is on the board |
| Minesweeper.AdjacentIsGuarded | guiapps/minesweeper.c:137-232 | every neighbour is one of the eight offsets tried |
| Minesweeper.ZeroStepIsSafe | guiapps/minesweeper.c:135-233 | with right counts the flood never opens a mine |
| Minesweeper.FloodIsExact | guiapps/minesweeper.c:135-233 | the cells open afterwards are those open before and exactly those reachable through zero-count cells |
| Minesweeper.Game.EmptyFieldsFill | guiapps/minesweeper.c:135-233 | the recursion ends, opens only reachable cells, leaves the cell spread, and counts what it opens |
| Minesweeper.WinTestIsRight | guiapps/minesweeper.c:235-260 | the counter test holds if and only if every safe cell is open |
| Minesweeper.Game.LeftClick | guiapps/minesweeper.c:235-260 | a click opens just the mine, or exactly the flood of a safe cell; anything else changes nothing |
| Minesweeper.Game.RightClick | guiapps/minesweeper.c:262-285 | the flag of a covered cell changes, and the flag counters stay right |
| Minesweeper.Game.MouseUp | guiapps/minesweeper.c:287-311 | clicks act only while the game is on, and it is won if and only if every safe cell and no mine is open |
| Minesweeper.Game.Shuffle | guiapps/minesweeper.c:367-373 | the board after the exchanges that the random numbers say, with the same number of mines |
| Minesweeper.ShuffledKeeps | guiapps/minesweeper.c:367-373 | a shuffle makes a permutation of the board |
| Minesweeper.EveryBoardIsMade | guiapps/minesweeper.c:367-373 | every board with that many mines is made by some random numbers |
| Minesweeper.Game.CountAll | guiapps/minesweeper.c:375-409 | every cell gets the number of mines among its neighbours |
| Minesweeper.Game.ResetBoard | guiapps/minesweeper.c:351-422 | a new board satisfies the invariant, all covered, with the number of mines asked for |
| Utf8.WriteUtf8 | libddi/libddi.c:769-811 | what is written is the form of the code point by the ranges of the RFCs, below 2^41, and seven or eight continuation octets above; the buffer of nine bytes is not left |
| Utf8.BufferIsExact | libddi/libddi.c:776-809 | the octets fit the buffer of nine bytes if and only if the code point is below 2^42 or from 2^46 to 2^48 - 1 |
| Utf8.ReadUtf8 | libddi/libddi.c:731-767 | the reader decodes the octets that the first one announces |
| Utf8.RoundTrip | libddi/libddi.c:731-811 | every code point from 1 to 2^41 - 1 reads back from its form, and the read ends where the form ends |
| Utf8.RoundTripIsExact | libddi/libddi.c:731-811 | what is written reads back as the code point written if and only if that is below 2^41 |
| Utf8.ShortestForm | libddi/libddi.c:731-811 | no octets that read as a code point are fewer than those written for it; as few are a continuation octet alone and the form up to the two top bits of its continuation octets, and no others |
| Utf8.FormIsTable | libddi/libddi.c:769-811 | the forms are the rows of the table of section 3 of RFC 3629, octet by octet, and the next two of section 2 of RFC 2279 |
| Utf8.ReadIsValue | libddi/libddi.c:731-767 | these are the octets that a read consumes, and their value is what it returns |
| Utf8.ReadsWhatIsNoForm | libddi/libddi.c:731-767 | two sequences of octets that are read and are no form |
| Utf8.TextSpells | libddi/libddi.c:731-811 | forms written one after another spell the code points written |
| Utf8.ReadingIsUnique | libddi/libddi.c:731-767 | a string spells one sequence of code points only |
| Utf8.CountUtf8 | libddi/libddi.c:813-818 | the count is the number of code points |
| Utf8.GetOffsetUtf8 | libddi/libddi.c:820-828 | the n-th boundary, or the terminator if there are fewer |
| TextPen.SegmentSize | libddi/libddi.c:1044-1199 | the end, the inclusive flag and the extents of a segment are exactly those of the first newline, overflow or end, and the last place to break at before it |
| TextPen.Progress | libddi/libddi.c:1044-1199 | the inclusive flag implies that the break lies after the start; without it the character there is a blank or a newline |
| TextPen.SegmentEnds | libddi/libddi.c:1044-1199 | where a segment ends, whether its end is left out, and which characters its extents and its advance are of |
| TextPen.MaskShown | libddi/libddi.c:1067-1074 | what is shown under a mask |
| TextPen.BreakCharacters | libddi/libddi.c:1027-1036 | at which characters a line may be broken |
| TextPen.TabAdvances | libddi/libddi.c:1117-1121 | a tab goes to the next multiple of 64 |
| TextPen.CharacterAdvances | libddi/libddi.c:1122-1141 | the extents are the smallest that hold the glyph and those before |
| TextPen.WidthIs | libddi/libddi.c:1262-1312 | the width noted for each character |
| TextPen.LinesAre | libddi/libddi.c:1314-1368 | the first segment goes to the line there is, every other one starts a line |
| TextPen.PassesCover | libddi/libddi.c:1201-1370 | the passes follow each other, each consumes something, and they cover the text once |
| TextPen.SegmentsNumbered | libddi/libddi.c:1201-1370 | the character ranges of the segments are consecutive and cover every character |
| TextPen.NewlinesEndLines | libddi/libddi.c:1101-1115 | no newline is drawn, and only blanks and newlines are skipped |
| TextPen.UnwrappedLines | libddi/libddi.c:1201-1370 | without wrapping the segments are exactly the stretches between newlines |
| TextPen.WrappedFits | libddi/libddi.c:1142-1170 | with wrapping every segment of two or more characters fits the rest of its line |
| TextPen.WordsStayWhole | libddi/libddi.c:1142-1170 | a word is cut if and only if a character that does not fit comes before any place to break at; the width reported differs from that of the characters drawn if and only if a word is cut and the next character makes a difference |
| TextPen.CutWordIsTooWide | libddi/libddi.c:1142-1170 | two letters of which one is drawn and the width of both reported |
| TextPen.OneByteFurther | libddi/libddi.c:1355-1357 | one byte after a character starts is the start of another if and only if the character is ASCII |
| TextPen.Pen.Write | libddi/libddi.c:1201-1370 | the lines and segments added are those of the passes, with their character numbers and widths, and the width array is large enough |
| TreeRows.DownIsNext | libgwm/datactrl.c:639-665 | DOWN goes to the next row, in any subtree |
| TreeRows.UpIsPrevious | libgwm/datactrl.c:614-638 | UP goes to the row before, in any subtree |
| TreeRows.ArrowsWalkRows | libgwm/datactrl.c:614-668 | DOWN is the successor and UP the predecessor in the preorder of visible nodes, and neither leaves the ends |
| TreeRows.ArrowsInverse | libgwm/datactrl.c:614-668 | the two undo each other |
| TreeRows.RowsDistinct | libgwm/datactrl.c:272-374 | every node has at most one row |
| TreeRows.EveryNodeHasRow | libgwm/datactrl.c:537-545 | the full traversal reaches every node |
| DataTree.DataCtrl.DrawNode | libgwm/datactrl.c:272-374 | the k-th row is placed at start + 20 k less the scroll, nothing else is, and start + 20 times the number of rows is returned |
| DataTree.DrawnIsPlaced | libgwm/datactrl.c:284-287 | after drawing, the rows lie as the hit test expects them |
| DataTree.DataCtrl.DoubleClick | libgwm/datactrl.c:511-535 | exactly the node of the row at that height is activated |
| DataTree.HitIsRow | libgwm/datactrl.c:511-535 | the k-th row is hit if and only if the height is in its 20 pixels |
| DataTree.DataCtrl.GetSelectionRecur | libgwm/datactrl.c:1050-1072 | the counter-th selected node in preorder, or the counter less their number |
| DataTree.DataCtrl.SelectOnly | libgwm/datactrl.c:537-549 | that node alone is selected, and no other field of any node changes |
| DataTree.DataCtrl.DownTarget | libgwm/datactrl.c:643-663 | the pointer walk of the DOWN key finds the node `Down` of the shape |
| DataTree.DataCtrl.UpTarget | libgwm/datactrl.c:618-637 | the pointer walk of the UP key finds `Up` of the shape |
| DataTree.DataCtrl.KeyDown | libgwm/datactrl.c:639-668 | the first selected node gives way to the one below it, and nothing else changes |
| DataTree.DataCtrl.KeyUp | libgwm/datactrl.c:614-638 | the same upwards |
| DataTree.DataCtrl.KeySpace | libgwm/datactrl.c:683-711 | the first selected node is expanded or collapsed, if it may be, and nothing else changes |
| TreeMemory.ToggleShowsRows | libgwm/datactrl.c:272-374 | expanding a node puts its rows directly behind its own row and moves no other; a node without a row shows nothing |
| DataTree.DataCtrl.AddNode | libgwm/datactrl.c:845-925 | the new node stands before or behind the reference, or first or last among its children, as asked, with the pointers to match; its siblings keep their order, all links are sound, no other node's data change; or an error changes nothing |
| TreeEdits.AddOk | libgwm/datactrl.c:870-918 | a node inserted between its neighbours leaves a sound tree |
| TreeEdits.TopChildLeavesStalePrev | libgwm/datactrl.c:898-902 | as written the new top child leaves a sound tree if and only if the parent had no children |
| TreeEdits.StalePrevAfterTopChild | libgwm/datactrl.c:898-902 | a tree of one node for which it is not sound |
| DataTree.DataCtrl.DeleteNodeRecur | libgwm/datactrl.c:959-1023 | exactly the node and everything below it is freed, and outside only the links to it change |
| DataTree.DataCtrl.DeleteNode | libgwm/datactrl.c:1025-1029 | what is left is a sound tree without that subtree |
| TreeEdits.PruneOk | libgwm/datactrl.c:959-1023 | the memory after a deletion has the shape without the subtree |
| TreeEdits.AddThenDelete | libgwm/datactrl.c:845-1029 | deleting a node just added gives back the tree |
| CellTable.Table.IsTaken | libgwm/gridlayout.c:235-244 | the bit of a cell; everything below the rows is free |
| CellTable.Table.MarkTaken | libgwm/gridlayout.c:260-295 | exactly one more bit is set, and rows are added as far as needed |
| CellTable.SetBit | libgwm/gridlayout.c:294 | setting a bit of a bitmap byte leaves the other seven |
| GridLayout.ApartIsNoSharedCell | libgwm/gridlayout.c:246-258 | rectangles are apart if and only if they share no cell |
| GridLayout.TakenIsUnfit | libgwm/gridlayout.c:246-258 | a rectangle is free in the bitmap if and only if the child meets no other; at and below the last row it always is |
| GridLayout.Grid.AddLayout | libgwm/gridlayout.c:309-349 | the search ends by the last row and takes the first place, row by row, that meets no other child; bits, entries and number of rows stay right; spans that cannot fit are refused |
| GridLayout.Grid.MinSize | libgwm/gridlayout.c:108-135 | the largest minimum per cell, times columns and rows |
| GridLayout.Grid.Run | libgwm/gridlayout.c:166-217 | every child with a layout gets its area, and no other cell gets one |
| GridLayout.MinimumIsEnough | libgwm/gridlayout.c:108-217 | given its minimum size the grid gives a child its own minimum up to span - 1, if and only if it is not centred at a preferred size below that; every child lies inside the grid |
| GridLayout.ShortfallIsReached | libgwm/gridlayout.c:108-217 | the shortfall of span - 1 occurs for every span |
| GridLayout.ChildLies | libgwm/gridlayout.c:180-208 | a child fills its cells, or has its preferred length in the middle of them, on each axis as its flags say |
| GridLayout.CentredGetsPreferred | libgwm/gridlayout.c:189-205 | a centred child that gets less than its minimum in a grid that has room for it |
| GridLayout.AreasApart | libgwm/gridlayout.c:166-217 | areas of different children never overlap |
| Tracks.UnitsAreEnough | libgwm/boxlayout.c:235-256 | from fixed lengths plus `longest` a unit on, each unit gets `longest`, all fit, and less than one pixel a unit is left over |
| Tracks.TracksInside | libgwm/boxlayout.c:269-365 | tracks lie inside the length, in order, without overlap |
| BoxLayout.BoxMinSize | libgwm/boxlayout.c:74-131 | the loop computes the minimum size of a box with all that is nested in it |
| BoxLayout.BoxRun | libgwm/boxlayout.c:192-366 | the two passes hand out the areas of all leaves |
| BoxLayout.ChildIsEnough | libgwm/boxlayout.c:269-365 | a child gets at least its minimum, in its track and inside the box |
| BoxLayout.BordersAreKept | libgwm/boxlayout.c:260-365 | a child lies in its track with a border on exactly the sides its flags ask for; on the other axis it fills the box less those, or has its minimum in the middle |
| BoxLayout.BorderOnTheLeft | libgwm/boxlayout.c:286-344 | a leaf with a border on the left alone |
| BoxLayout.MinimumIsTight | libgwm/boxlayout.c:74-131 | at the minimum size the tracks just fill the box, and a unit and the width are just what some child needs |
| BoxLayout.LayoutIsSound | libgwm/boxlayout.c:74-366 | given its minimum size, a layout nested to any depth gives every leaf its minimum inside the area, and no two leaves overlap |
| FlexLayout.Flex.AddLayout | libgwm/flexlayout.c:448-477 | the search ends and takes the next cell in row order |
| FlexLayout.Flex.GetColInfo | libgwm/flexlayout.c:146-175 | the largest minimum and proportion of every column |
| FlexLayout.Flex.GetRowInfo | libgwm/flexlayout.c:114-144 | the same of every row |
| FlexLayout.Flex.MinSizes | libgwm/flexlayout.c:177-228 | fixed tracks plus the longest unit times the units, on both axes |
| FlexLayout.Flex.Run | libgwm/flexlayout.c:289-382 | exactly the children with a layout get areas, each that of its tracks |
| FlexLayout.TrackIsEnough | libgwm/flexlayout.c:177-336 | a track of proportion p gets its length, or at most p - 1 less |
| FlexLayout.ShortfallIsReached | libgwm/flexlayout.c:177-336 | the shortfall of p - 1 occurs for every p |
| FlexLayout.MinimumIsEnough | libgwm/flexlayout.c:177-382 | given its minimum size the layout gives each child its minimum up to that rounding, a centred one exactly; a child lies in its track, and so in the area, if and only if it is not centred or its minimum fits the track |
| FlexLayout.ChildLies | libgwm/flexlayout.c:345-372 | a child fills its column and its row, or has its minimum in the middle, on each axis as its flags say |
| FlexLayout.TracksAreOf | libgwm/flexlayout.c:114-175 | columns have the widths and x proportions of their children, rows the heights and y proportions |
| FlexLayout.TrackIsSome | libgwm/flexlayout.c:114-175 | and no more than some child asks for |
| FlexLayout.MinimumIsTight | libgwm/flexlayout.c:177-228 | at the minimum size the tracks just fill the layout, and a unit is just what some track needs |
| FlexLayout.ChildrenApart | libgwm/flexlayout.c:289-382 | two children in different columns or rows that they do not stick out of do not overlap |
| FlexLayout.CentredMayStickOut | libgwm/flexlayout.c:353-363 | at the minimum size of the layout two centred children stick out of its area on both sides, and overlap |
| GlNames.SameObjectSameName | libgl/object.c:31-66 | two names have the same object if and only if they are equal |
| GlNames.Context.GetObject | libgl/object.c:31-66 | the trie refines a map: a lookup finds the name's object, makes what is missing, and changes the object of no name |
| GlNames.AddNodeKeeps | libgl/object.c:44-52 | a new trie node disturbs no name |
| GlNames.AddObjectKeeps | libgl/object.c:57-63 | a new object disturbs no other name |
| GlNames.Context.AllocName | libgl/object.c:68-80 | the least free name from 1 on becomes reserved, and no other name changes; it is 0 if and only if no other is free |
| GlNames.SomeNameIsFound | libgl/object.c:68-80 | some candidate of the loop is free if and only if some name is |
| GlNames.Context.GenObjects | libgl/object.c:82-94 | the n first free names, in the order of the candidates; a negative count is an error |
| GlNames.Context.GenBuffers | libgl/glGenBuffers.c:31-41 | the same for buffers, refused without driver support |
| GlNames.Context.SetBinding | libgl/glBindBuffer.c:31-85 | one binding point changes, or none and the driver's error is kept |
| GlNames.Context.BindBuffer | libgl/glBindBuffer.c:87-129 | which name gets a buffer, which point is bound, and which error is raised, in the order of the checks |
| GlNames.BindErrors | libgl/glBindBuffer.c:87-129 | the error of every case, check by check; the first error stays |
| GlNames.TargetsAre | libgl/buffer.c:31-90 | the constant of every binding point, and that no other number selects one |
| GlNames.Context.DeleteBuffers | libgl/glDeleteBuffers.c:54-74 | exactly the reserved and buffer names of the list become free, and exactly their buffers are unbound |
| GlNames.Context.GetBuffer | libgl/buffer.c:55-90 | what is bound to a target is a buffer that a live object owns |
| GlNames.EnumOf | libgl/buffer.c:31-53 | every binding point is selected by its target constant |
| GlNames.ChangeKeeps | libgl/glBindBuffer.c:107-128 | reserving, freeing or giving a new buffer keeps: one owner a buffer, every binding empty or owned |
| Mystic.ExchangeFlips | guiapps/mystic.c:100-156 | exchanging any two entries changes the parity of the inversions |
| Mystic.NeighboursAreOneApart | guiapps/mystic.c:100-156 | places are neighbours if and only if they are one step apart |
| Mystic.MoveKeeps | guiapps/mystic.c:100-156 | a move keeps the board a permutation and its signature, and another move undoes it |
| Mystic.TwoExchangedNeverReached | guiapps/mystic.c:100-224 | no run of clicks and scrambles reaches the solved board with two tiles exchanged |
| Mystic.RunUndone | guiapps/mystic.c:100-224 | every run can be brought back by a run |
| Mystic.Puzzle.ClickTile | guiapps/mystic.c:100-156 | the tile moves if and only if the space is next to it |
| Mystic.Puzzle.Scramble | guiapps/mystic.c:176-224 | a hundred legal moves, whatever the random numbers |
| Mystic.Puzzle.IsSolved | guiapps/mystic.c:48-60 | true if and only if the board is the solved one |
| Calculator.EvaluatesToValue | guiapps/calc.c:96-234 | the tokens of any expression tree are consumed to the last and evaluate to its value, with precedence and association to the left |
| Calculator.Unambiguous | guiapps/calc.c:96-234 | trees with the same tokens have the same value |
| Calculator.OperatorsMean | guiapps/calc.c:141-229 | what each sign computes, and the order of two, on the tokens |
| Calculator.ClosingMayBeOmitted | guiapps/calc.c:121-125 | an expression with any number of its last brackets left open has the value of the whole |
| Calculator.CleanIsExpression | guiapps/calc.c:96-234 | the scan ends clean, n brackets deep, if and only if the tokens with n closing brackets behind them are an expression |
| Calculator.AcceptedIsScanned | guiapps/calc.c:96-234 | all tokens are consumed if and only if there are none or the scan does not refuse them |
| Calculator.AcceptedThoughMalformed | guiapps/calc.c:96-234 | tokens that no closing brackets make an expression are all consumed if and only if there are none or the scan is cut |
| Calculator.ZeroIsScanned | guiapps/calc.c:301-304 | zero is shown for what is refused, and for what is cut at a level with one kind of operator in brackets without operators; for nothing else, unless a number or an operation is zero |
| Calculator.DanglingOperator | guiapps/calc.c:155-213 | a last operator without operand is consumed; `+` and `-` make the whole zero, `*` and `/` only the last product |
| Calculator.DanglingIsNotZero | guiapps/calc.c:155-213 | `x + y *` gives x + 0 with nothing left |
| Calculator.RestIsSkipped | guiapps/calc.c:208-213 | anything behind `+ )` is skipped |
| Calculator.EvalPrimary | guiapps/calc.c:96-139 | value and out-pointer; the out-pointer is a suffix of the input |
| Calculator.EvalProduct | guiapps/calc.c:141-184 | the same for the loop over `*` and `/` |
| Calculator.EvalSum | guiapps/calc.c:186-229 | the same for the loop over `+` and `-` |
| Calculator.Evaluate | guiapps/calc.c:301-304 | the value of the tree whose tokens are given; zero for what `ZeroIsScanned` says |
| Tetris.Game.CheckRows | guiapps/tetris.c:371-412 | the loop ends; exactly the rows that are not full stay, in order, below empty ones, and each removed one scores |
| Tetris.KeptAreNotFull | guiapps/tetris.c:371-412 | none of the rows kept is full |
| Tetris.CountSettled | guiapps/tetris.c:371-412 | every row removed takes ten occupied cells |
| Tetris.BlocksApart | guiapps/tetris.c:181-189 | a matrix of determinant 1 keeps the blocks of a piece apart |
| Tetris.TurnKeepsDet | guiapps/tetris.c:341-348 | a rotation keeps the determinant of any matrix |
| Tetris.TurnIsQuarter | guiapps/tetris.c:341-348 | a rotation turns every block by a quarter about the middle, right going down and down going left |
| Tetris.PiecesHangTogether | guiapps/tetris.c:97-168 | the blocks of every piece share edges |
| Tetris.LockedIsExact | guiapps/tetris.c:449-456 | a settled piece colours its four places and no other |
| Tetris.RightEdgeIsMissed | guiapps/tetris.c:215-229 | some new piece touches the right edge if and only if the piece is not drawn to the left of its middle |
| Tetris.CountLocked | guiapps/tetris.c:451-455 | settling a piece that fits adds a cell for every block |
| Tetris.Game.MovePiece | guiapps/tetris.c:319-339 | the piece moves if and only if it fits there |
| Tetris.Game.Rotate | guiapps/tetris.c:341-369 | a quarter turn, taken back if and only if it does not fit |
| Tetris.Game.NextPiece | guiapps/tetris.c:197-246 | the piece and the column drawn; it is wholly inside the grid, and the game is over if and only if it does not fit |
| Tetris.Game.Lock | guiapps/tetris.c:449-456 | the grid with the four blocks settled |
| Tetris.Game.Update | guiapps/tetris.c:435-466 | the piece falls, or settles and rows go; no row is full afterwards; occupied cells plus ten times the score stay four times the pieces settled |
| Tetris.Game.ResetGame | guiapps/tetris.c:488-503 | an empty grid in which the first piece fits |

## Left out

- Disks, mounts, processes, terminals, sockets, shared memory and drawing: disk contents, random numbers, addresses from `malloc`, glyph metrics and driver answers are parameters.
- `libgwm/libgwm.c:101-166`: the list of waiters for server responses.
- `libgwm/libgwm.c`: the reads of focus and modal master after a window is destroyed, and failures of the server connection other than the one of the destroy command.
- `libgl/glDeleteVertexArrays.c`: deletion of vertex arrays; the binding invariant is about buffers.
- `libgl/glDeleteBuffers.c`: a negative count, for which the source's loop leaves its array.
- GPT inputs with entries that start in the first megabyte, are shorter than one, or overlap once cut to whole megabytes; headers whose entry array is not at LBA 2.
- PartitionList.Drive.LoadEntry: is for entries from the first megabyte on and of one megabyte or more, on space that is clear; one that starts before gets the offset 2^64 - 1 in the source.
- Integer widths of layout sizes, scores and pixel positions; sizes are non-negative where the source keeps them so, and nothing wraps.
- Preferred sizes of the box and flex layouts, which only callers read; `libgwm/staticlayout.c`.
- Cells, columns, headers, scrolling and the mouse selection of the data control, which also expands and collapses nodes, and the events it posts: handlers are taken not to change the tree while a loop over it runs.
- Failed glyph loads, surfaces, baselines and colours of the pen.
- Tokenising with `strtod` and the rounding of `double` in the calculator.
- The timer, the settings dialogs and high scores of the programs; mouse positions of the fifteen puzzle.
- PartitionList.Drive.Replace: with it every split and load makes the assignment to the `prev` of the node behind the split area that the source leaves out.
- DataTree.DataCtrl.AddNode: makes the assignment to the `prev` of the old first child that the source leaves out; a reference node is never the root, which callers cannot name.
- TextPen.Pen.Write: is for texts in which every character that can be skipped is one byte, which `TextPen.OrdinaryMasks` gives for every mask that is not a blank or a newline.
- Utf8.WriteUtf8: is for the code points of `Utf8.InBuffer`; for all others, by `Utf8.BufferIsExact`, the source writes in front of its buffer, which is not modelled.
- GlNames.Context.AllocName: is for contexts with a free name; by `GlNames.SomeNameIsFound` the source's loop comes to a free name exactly then.
- FlexLayout.Flex.AddLayout: is for layouts with at least one column; with none the source writes to an array without elements.
- BoxLayout.LayoutIsSound: proportions are not negative, and what is not a box is a leaf that takes any area.
