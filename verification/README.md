# Phoenix-RTOS user-space core, verified

A Dafny model of the parts of Phoenix-RTOS where the most is decided in the least code, with proofs
of what those parts are for:

* the red-black tree of the C library and the id tree built on it (`Rb*.dfy`, `IdTree.dfy`),
* the general purpose allocator (`Malloc*.dfy`),
* arbitrary precision numbers and the printing of doubles (`Limbs.dfy`, `Bignum.dfy`,
  `BigDouble.dfy`, `Digits.dfy`, `Numerals.dfy`, `Format*.dfy`),
* conversion between seconds and dates (`Calendar.dfy`, `Time.dfy`, `TimeDeclared.dfy`),
* the matcher of regular expressions and the code generator for it (`Regex*.dfy`, `BitWord.dfy`),
* file name patterns (`Glob.dfy`, `Fnmatch.dfy`),
* buffered streams (`RawFile.dfy`, `Stream.dfy`, `StreamLaws.dfy`),
* resolution of paths with links (`PathNames.dfy`, `PathResolve.dfy`, `PathLaws.dfy`),
* pipes and the object table of the POSIX server (`PipeRing.dfy`, `Pipe.dfy`, `PipeLaws.dfy`,
  `Objects.dfy`).

`Powers.dfy` and `Arith.dfy` hold facts about powers and quotients that several of them use.
Verify with `dafny verify dfyconfig.toml`.

## How the model stands to the code

Code that works in place is modelled in place: the tree, the allocator, bignums, the state sets of
the matcher, the strip of the compiler, streams, the ring of a pipe, the path buffers and the
object table are classes or arrays with methods, and each method is proved against a mathematical
description that does not mention the code: sets of keys and runs of unused ids, a tiling of each
heap, integers and rational rounding, the calendar counted one day at a time, languages of texts,
one position in an unbuffered file, stacks of names, and streams of bytes.

Sizes are those of a 32-bit target: `int` and `size_t` have 32 bits and wrap or are undefined as C
says, `time_t` is unsigned with 64. Every region under a lock is one step. The operating system is a
parameter that answers as it is allowed to: `mmap` gives an unused region or none, reads and writes
may move fewer bytes than asked for, `readlink` gives a fixed text for each path, and a number or a
text buffer grows or, if there is no memory, may fail to.

Results about whole runs say what the run did: the answers and the final state are those of a replay
of the calls on a plain description. What these descriptions mean is then stated once more by laws that
do not use their definitions: a link in a path is its text in its place, what was written is what is
read back, the text printed reads as the nearest number, `(a|b)` has the texts of both.

## What was found

* `idtree_alloc` has a branch that returns -1, and it is never taken. With 2^31 ids in use, and only
  then, the node enters the tree with the id 2^31, which comparisons misplace, and the answer is that
  id as a negative `int` (`IdTree.Alloc`, `LowestGapBound`, `LimitIsMisplaced`).
* `malloc` lets a size above 2^32 - 16 through and rounds it to nothing; a block is big enough for
  exactly the sizes up to there (`ChunkForFits`, `ChunkForWraps`).
* `time_t` is declared unsigned, so a second before 1970 is a very large number: `gmtime_r` rejects it
  and `timegm` gives -1 for the date (`GmtimeR`, `TimegmT`). The guard accepts three days and
  one second more than it should, and `gmtime_r` is right on exactly the seconds from 1970 to there
  (`GmtimeR`, `RoundTripT`). The algorithm itself would be right for seconds before 1970 too: `Time.dfy`
  takes time as signed.
* `posixsrv_object_destroy` on an object that nobody holds leaves it in the table for good, and this is
  the only way to lose one (`UnheldWhen`, `ReleasedWhen`, `UnheldExample`). It is a hazard of the
  interface: the callers in the repository hold a reference when they destroy.
* The place `coldp` from which the matcher looks for the begin of a match may lie behind it. `(a*|b)c`
  is found in "bc" at the "c", though all of it matches (`ColdIsLate`, `NotLeftmost`). The match found
  is the leftmost in every text exactly if the code never loses a match: there is no text over which
  nothing ends and whose next character leads from the states that are on to states of the beginning
  only, though one of those moves goes on to the end (`NeverLost`, `LeftmostExactly`). Often the first
  states show that this holds, as for `(a*|bb)c` (`TameNeverLost`, `TwiceNeverLost`).
* An expression without code, such as `a{0}`, is the error REG_EMPTY, alone, as an alternative and in
  parentheses, but `()` is not (`Regcomp`).

## Model

| member | source | states |
|---|---|---|
| RbTree.Tree.constructor | libphoenix/sys/rb.c:20-25 | a new tree is empty and valid |
| RbTree.Tree.RbAugment | libphoenix/sys/rb.c:28-35 | the callback, if there is one, recomputes the fields of a node and its ancestors |
| RbTree.Tree.RotateLeft | libphoenix/sys/rb.c:38-59 | pointers, parent links and gap fields end up those of the rotated tree, in any context |
| RbTree.Tree.RotateRight | libphoenix/sys/rb.c:62-83 | the mirror image |
| RbMem.RotateLeftOk | libphoenix/sys/rb.c:38-59 | the writes of a left rotation turn memory that holds a tree in a context into memory that holds the rotated tree there |
| RbMem.RotateRightOk | libphoenix/sys/rb.c:62-83 | the same for a right rotation |
| RbTree.Tree.InsertBalance | libphoenix/sys/rb.c:86-131 | from a tree with at most one red-red fault at the new node to a red-black tree with the same entries |
| RbInsert.RecolorStep | libphoenix/sys/rb.c:94-99 | recolouring moves the one fault two levels up and keeps order, colours elsewhere and black heights |
| RbInsert.ClimbingDone | libphoenix/sys/rb.c:86-131 | a tree whose fault has reached the root is a red-black tree once the root is black |
| RbTree.Tree.RemoveBalance | libphoenix/sys/rb.c:134-209 | from a tree one black short at one place to a red-black tree with the same entries |
| RbRemove.MoveUp | libphoenix/sys/rb.c:158-162 | painting the sibling red moves the shortage to the parent |
| RbRemove.FarRedEnd | libphoenix/sys/rb.c:169-176 | the last rotation ends the shortage without changing the entries |
| RbRemove.ShortDone | libphoenix/sys/rb.c:134-209 | a shortage at a red node or the root ends by painting it black |
| RbTree.Tree.Transplant | libphoenix/sys/rb.c:212-229 | one subtree hangs where another was, in memory too |
| RbTree.Tree.Insert | libphoenix/sys/rb.c:232-263 | the tree stays a red-black search tree with exact gaps; the entry set grows by the new node, or nothing at all changes and the node with that key is returned, exactly if the key was there; a key of 2^31 still finds its place, and the keys stay comparable exactly below it |
| RbTree.Tree.Remove | libphoenix/sys/rb.c:266-311 | the tree stays valid and its entry set loses exactly the removed node |
| RbTree.Tree.SpliceTwo | libphoenix/sys/rb.c:266-311 | a node with two children is replaced by its successor, all links and gaps in order |
| RbTree.Tree.Minimum | libphoenix/sys/rb.c:314-325 | the leftmost node of a subtree |
| RbTree.Tree.Maximum | libphoenix/sys/rb.c:328-339 | the rightmost node of a subtree |
| RbTree.Tree.Find | libphoenix/sys/rb.c:370-393 | NULL exactly if no node has the key, otherwise the node that has it |
| RbShape.HeightBound | libphoenix/sys/rb.c:86-209 | what the colours are for: the height is at most twice the black height, and two to the black height at most the number of keys plus one |
| RbRun.Perform | libphoenix/sys/rb.c:232-311 | an insertion or removal changes the entry set as it would change a set, and keeps the tree valid |
| RbRun.Run | libphoenix/sys/rb.c:86-311 | after every run of insertions and removals the tree is a red-black search tree with right parent links and exact gaps, and has the entries a set would have |
| RbRun.EntriesAre | libphoenix/sys/rb.c:86-311 | what is in the tree after a run: what was put in when neither node nor key was there, and not taken out since |
| RbRun.OneEach | libphoenix/sys/rb.c:86-311 | a node has one key and a key one node |
| RbTree.CompareOrders | libphoenix/posix/idtree.c:22-28 | the difference of two ids, the first below 2^31 and the second at most 2^31, has the sign of their order |
| RbTree.Tree.Augment | libphoenix/posix/idtree.c:64-107 | both gap fields of a node and the fields on the way to the root are recomputed |
| RbGaps.AugmentExact | libphoenix/posix/idtree.c:64-107 | after that, in a tree whose fields were exact elsewhere, all fields are exact |
| RbShape.MaxGapIsLargestRun | libphoenix/posix/idtree.c:64-107 | the number a field is compared with is the length of the longest run of unused ids on that side, computed from the plain set of ids |
| IdTree.NoGapMeansFull | libphoenix/posix/idtree.c:31-61 | no gap below a node means every id there is used |
| IdTree.FindGap | libphoenix/posix/idtree.c:31-61 | the search ends at a node beside the lowest run of unused ids |
| IdTree.LowestGapBound | libphoenix/posix/idtree.c:136-157 | an id of the lowest gap is unused and at most one above the largest used one; it is below 2^31 exactly if fewer than 2^31 ids are in use, and 2^31 if that many are |
| IdTree.LowestGapIs | libphoenix/posix/idtree.c:136-157 | no id in use lies between an unused one and the id chosen, and one is next to it unless it is 0 |
| IdTree.Alloc | libphoenix/posix/idtree.c:136-157 | in every valid tree the node enters with an unused id next to the lowest gap, every id below the gap being used; the id is returned and the tree stays valid exactly if fewer than 2^31 ids are in use, and otherwise the answer is -2^31 |
| IdTree.LimitIsMisplaced | libphoenix/posix/idtree.c:22-28 | an id of 2^31 compares as smaller than 0 |
| MallocSize.ChunkForFits | libphoenix/stdlib/malloc_dl.c:440-449 | the rounded size has room for the request and its header exactly for sizes up to 2^32 - 16, is less than 8 more than it need be, and is 0 above |
| MallocSize.ChunkForWraps | libphoenix/stdlib/malloc_dl.c:440-449 | a request that passes the guard and is rounded to nothing |
| MallocSize.FindFit | libphoenix/stdlib/malloc_dl.c:97-117 | the descent finds a size that fits exactly if the tree has one |
| MallocSize.LargeIndexGrows | libphoenix/stdlib/malloc_dl.c:126-138 | a bigger size never has a smaller bin index |
| MallocSize.BinOfSize | libphoenix/stdlib/malloc_dl.c:126-138 | the index computed from the highest bits is that of the bin whose range has the size |
| MallocSize.LookupReverses | libphoenix/stdlib/malloc_dl.c:97-117 | an entry of the table is the largest size with its index |
| MallocSize.HeapWraps | libphoenix/stdlib/malloc_dl.c:306-313 | the size of a heap is whole pages; it wraps around, as the code finds out, exactly for more than 0xFFFFEFF8 bytes; up to there it has room for its header and the chunk and is less than a page larger |
| MallocSize.WantIsLast | libphoenix/stdlib/malloc_dl.c:351-408 | a heap is made for a small size itself, for the largest size that has the same index as a large one, and in the last bin for the size itself |
| MallocArena.LiveApart | libphoenix/stdlib/malloc_dl.c:141-170 | live blocks never overlap |
| MallocArena.Covered | libphoenix/stdlib/malloc_dl.c:141-170 | every byte of a heap behind its header lies in a chunk |
| MallocArena.AllFree | libphoenix/stdlib/malloc_dl.c:514-518 | a heap whose free count is its size is one free chunk |
| MallocArena.CutTiles | libphoenix/stdlib/malloc_dl.c:255-266 | a chunk cut in two leaves the heap tiled |
| MallocArena.FuseTiles | libphoenix/stdlib/malloc_dl.c:269-296 | two neighbours joined leave it tiled |
| MallocArena.FreeChange | libphoenix/stdlib/malloc_dl.c:331-348 | a change inside one stretch of a heap changes its free sum there and no other sum |
| Malloc.Allocator.constructor | libphoenix/stdlib/malloc_dl.c:593-608 | an allocator with no heap is valid |
| Malloc.Allocator.ChunkAdd | libphoenix/stdlib/malloc_dl.c:190-211 | the chunk is in exactly the bin its size names, the bitmaps match |
| Malloc.Allocator.ChunkRemove | libphoenix/stdlib/malloc_dl.c:214-246 | the chunk is in no bin, all others are where they were, the bitmaps match |
| MallocHead.TakeOver | libphoenix/stdlib/malloc_dl.c:238-245 | in memory, the next chunk of a list takes the place of its head in the tree: parent, children, colour and the links to it |
| MallocHead.SameButHead | libphoenix/stdlib/malloc_dl.c:238-245 | the tree has the same keys in the same order and colours, with the other node at that key |
| Malloc.Allocator.ChunkSplit | libphoenix/stdlib/malloc_dl.c:249-266 | a free chunk is cut; the sum of free bytes of every heap stays |
| Malloc.Allocator.JoinPair | libphoenix/stdlib/malloc_dl.c:269-296 | two free neighbours become one chunk in one bin, live blocks untouched |
| Malloc.Allocator.ChunkJoin | libphoenix/stdlib/malloc_dl.c:269-296 | after it no two neighbours are free around the chunk |
| Malloc.Allocator.HeapAlloc | libphoenix/stdlib/malloc_dl.c:299-328 | fails, and nothing changes, exactly if the size of the heap wraps around or the system refuses a region of that size; otherwise that region is a new heap of one free chunk that is big enough |
| Malloc.Allocator.AllocFrom | libphoenix/stdlib/malloc_dl.c:331-348 | the chunk, or its beginning, becomes live; no more is taken than what is too little for another chunk, and exactly the size unless nothing free is left behind it; flags, footers and counts follow |
| Malloc.NoBinFits | libphoenix/stdlib/malloc_dl.c:351-385 | if no bin from that of the size on has a fitting chunk, none is free anywhere |
| Malloc.NoSmallFits | libphoenix/stdlib/malloc_dl.c:388-417 | with no bit set from that of the size on, no small free chunk fits |
| Malloc.Allocator.PickSmall | libphoenix/stdlib/malloc_dl.c:390-403 | of all free chunks that fit, the bit found names one of the smallest size; none is found exactly if no small one fits |
| Malloc.Allocator.FindLarge | libphoenix/stdlib/malloc_dl.c:351-385 | a free chunk that fits is found exactly if there is one |
| Malloc.Allocator.HeapLarge | libphoenix/stdlib/malloc_dl.c:376-382 | fails exactly if the region for the largest size of the bin is not to be had, and otherwise adds it |
| Malloc.Allocator.AllocLarge | libphoenix/stdlib/malloc_dl.c:351-385 | the answer is 0 exactly if nothing free fits and the region for the largest size of the bin is refused or its size wraps around; that region alone is mapped, and only if nothing free fits; the block is no bigger than need be |
| Malloc.Allocator.AllocSmall | libphoenix/stdlib/malloc_dl.c:388-417 | the same for small requests, whose region is that for the size itself |
| Malloc.Allocator.Alloc | libphoenix/stdlib/malloc_dl.c:436-465 | all invariants kept; the new block is live, was not before, is big enough for the rounded size and less than a least chunk bigger, exactly as big unless nothing free is behind it, and all other blocks are as they were; 0 is the answer, and nothing changes, exactly if the size is rejected, or nothing free fits and the region of the heap for the rounded size is refused or wraps around |
| Malloc.Allocator.Free | libphoenix/stdlib/malloc_dl.c:486-521 | all invariants kept, the block and no other leaves the live ones, a block that is free already is refused; if every heap had a live block, every heap that is left has one |
| Malloc.Allocator.Unmap | libphoenix/stdlib/malloc_dl.c:514-518 | a heap that is all free goes, and nothing else |
| Malloc.Allocator.Shrink | libphoenix/stdlib/malloc_dl.c:554-567 | the block keeps its place with the new size, invariants kept |
| Malloc.Allocator.Grow | libphoenix/stdlib/malloc_dl.c:568-573 | the block keeps its place, gains what was asked for, and no more than need be |
| Malloc.Allocator.Realloc | libphoenix/stdlib/malloc_dl.c:524-590 | all invariants kept; the block stays exactly if it is big enough or the chunk behind it is free and has what is missing; otherwise it moves, or, exactly if nothing free fits and the region of the heap for it is refused or wraps around, the answer is 0 and nothing changes; the block is big enough and less than a least chunk bigger, so that what it does not need is given up, and every other block is as it was |
| MallocRun.BlocksApart | libphoenix/stdlib/malloc_dl.c:436-590 | the bytes that two variables of a program were given never overlap |
| MallocRun.LiveAre | libphoenix/stdlib/malloc_dl.c:436-590 | a block is live exactly if a variable of the program holds it |
| MallocRun.HeapHasBlock | libphoenix/stdlib/malloc_dl.c:514-518 | every heap that is kept has a block of the program, so none is left when all are freed |
| MallocArena.NotAllFree | libphoenix/stdlib/malloc_dl.c:514-518 | a heap whose free count is not its size has a live block |
| MallocRun.Run | libphoenix/stdlib/malloc_dl.c:436-590 | for every sequence of malloc, free and realloc, whatever the system maps, at each moment: the program's blocks, replayed from the answers, are exactly the live ones, apart, as large as asked for and less than 39 bytes larger than that with a header or than a least chunk; every heap holds one of them and is a region asked for when nothing free fitted; chunks tile the heaps, no two neighbours are free, flags, footers and sums are right, at the end bins and bitmaps too; and a request is answered with 0 exactly if its size is rejected, or nothing free fits at that moment and the system then refuses the region asked for or its size wraps around |
| Bignum.Compare | libphoenix/stdio/bignum.c:129-155 | the order of the numbers, leading zero limbs ignored |
| Bignum.Bignum.Resize | libphoenix/stdio/bignum.c:39-101 | growth from stack to heap storage keeps the limbs; it fails only without memory, and then nothing has changed |
| Bignum.Bignum.Push | libphoenix/stdio/bignum.c:278-289 | the value grows by the limb at its place; it fails only without memory |
| Bignum.Bignum.Mul | libphoenix/stdio/bignum.c:243-261 | exact product with a word; it fails only without memory |
| Bignum.Bignum.ShiftLeftBy | libphoenix/stdio/bignum.c:104-126 | exact product with 2^shift, up to one limb; it fails only without memory |
| Bignum.Bignum.ShiftLeft | libphoenix/stdio/bignum.c:188-199 | exact product with 2^shift for every shift from 1 on; it fails only without memory |
| Bignum.Bignum.ShiftRightBy | libphoenix/stdio/bignum.c:20-36 | floor of the quotient by 2^shift below one limb |
| Bignum.Bignum.ShiftRight | libphoenix/stdio/bignum.c:202-216 | floor of the quotient by 2^shift for every shift |
| Bignum.Bignum.CompareTo | libphoenix/stdio/bignum.c:219-223 | the order against a word |
| Bignum.Bignum.Copy | libphoenix/stdio/bignum.c:226-240 | the value is the source's; it fails only without memory |
| Bignum.Bignum.Div | libphoenix/stdio/bignum.c:264-275 | quotient times divisor plus remainder is the old value, the remainder below the divisor |
| BigDouble.BigDouble.Load | libphoenix/stdio/format.c:212-250 | the number loaded over its scale is exactly the value of the double |
| BigDouble.SomeDoubles | libphoenix/stdio/format.c:212-250 | which doubles are 0, the least above it, and 1 |
| BigDouble.NextDouble | libphoenix/stdio/format.c:212-250 | the next double in the order of the bits is a unit of its binade larger, and these units double from one exponent to the next |
| BigDouble.DoublesGrow | libphoenix/stdio/format.c:212-250 | values grow with the bits |
| BigDouble.BigDouble.IntegerPart | libphoenix/stdio/format.c:191-198 | its floor; it fails only without memory |
| BigDouble.BigDouble.CutIntegerPart | libphoenix/stdio/format.c:201-209 | its fraction is left |
| Digits.Reverse | libphoenix/stdio/format.c:301-310 | a stretch of the text is turned round, the rest left |
| Digits.IncrementNum | libphoenix/stdio/format.c:384-401 | the text after the carry is worth one more |
| Digits.IncrementForm | libphoenix/stdio/format.c:384-401 | digits stay digits and the dot stays where it was |
| Digits.IncrementLead | libphoenix/stdio/format.c:384-401 | a first digit that is not zero stays so unless a digit is put before it |
| Digits.Carry | libphoenix/stdio/format.c:384-401 | the carry loop computes that text |
| FormatDecimal.NextDigit | libphoenix/stdio/format.c:355-364 | the digit and the rest are quotient and remainder of ten times the fraction; it fails only without memory |
| FormatDecimal.IntegerDigits | libphoenix/stdio/format.c:335-345 | the digits, highest first, are worth the number and have no leading zero; it fails only without memory |
| FormatDecimal.FractionDigits | libphoenix/stdio/format.c:354-368 | the text is worth the number cut behind the given digit, and the rest is exact; it fails only without memory |
| FormatDecimal.RoundedIs | libphoenix/stdio/format.c:369-382 | looking at one more digit is rounding half up |
| FormatDecimal.DecimalForm | libphoenix/stdio/format.c:313-412 | the digits read as an integer are the number times 10^precision rounded half up, the dot before the last of them, no zero in front of an integer part of several digits; it fails only without memory |
| FormatDecimal.PrintDecimal | libphoenix/stdio/format.c:212-412 | the same of every finite double that is not negative, floor(v * 10^p + 1/2): with memory it succeeds; read digit by digit, the text is the decimal number with that many places nearest to the double, the upper one of two |
| FormatDecimal.DecimalSays | libphoenix/stdio/format.c:313-412 | text in decimal form that is worth the rounded value reads as the nearest number |
| FormatScientific.FirstDigit | libphoenix/stdio/format.c:565-579 | the exponent of a fraction and its first digit that is not zero; it fails only without memory |
| FormatScientific.Gather | libphoenix/stdio/format.c:536-603 | the digits before rounding are the number cut one digit behind the last, with its exact exponent; it fails only without memory |
| FormatScientific.RoundScaled | libphoenix/stdio/format.c:605-632 | rounding that digit half up rounds the number half up |
| FormatScientific.RoundDigits | libphoenix/stdio/format.c:605-632 | after the carry, also one that adds a digit and bumps the exponent, the digits are the number rounded half up, the first one not zero |
| FormatScientific.ExponentDigits | libphoenix/stdio/format.c:660-685 | at least two digits, worth the exponent, no other leading zero; it fails only without memory |
| FormatScientific.ScientificForm | libphoenix/stdio/format.c:527-687 | leading digit not zero, rounded half up at the last digit, dot, sign and exponent right; it fails only without memory |
| FormatScientific.PrintScientific | libphoenix/stdio/format.c:212-687 | the same of every finite positive double: with memory it succeeds; read digit by digit, the text is the number with that many digits nearest to the double, the upper one of two |
| FormatScientific.ScientificSays | libphoenix/stdio/format.c:527-687 | the same for text in scientific form, also where a carry moved the exponent |
| Calendar.YearStartIs | libphoenix/time/time.c:293-314 | the days before a year, counted year by year in both directions, have the closed form that is computed |
| Calendar.DateUnique | libphoenix/time/time.c:42-56 | a day has one date |
| Time.MarchFirst | libphoenix/time/time.c:155-164 | March 1 of the year that lies whole periods behind 2000 is as many days away as those periods have, and which of these years are leap years |
| Time.EpochDaysToYears | libphoenix/time/time.c:147-197 | the year and the day of the year of every day, past or future |
| Time.MonthAndDay | libphoenix/time/time.c:234-245 | the month and the day of the month of a day of the year |
| Time.DayOfWeek | libphoenix/time/time.c:224-227 | the day of the week, also before 1970 |
| Time.Gmtime | libphoenix/time/time.c:200-249 | the algorithm on signed seconds: EOVERFLOW exactly above the guard; for exactly the days whose arithmetic fits, all fields in their ranges, February 29 in leap years only, naming the given second |
| Time.CanonicalUnique | libphoenix/time/time.c:200-249 | one broken-down time for each second |
| Time.Epoch | libphoenix/time/time.c:200-249 | second 0 is the midnight at which January 1, 1970 began, a Thursday |
| Time.NextDay | libphoenix/time/time.c:200-249 | a day later it is the next day of the week and the next day of the year, or the first of the next year, at the same time |
| Time.Leapcount | libphoenix/time/time.c:293-314 | the leap days that make the count of days before the year right, for every `int` year whose arithmetic fits, and exactly which ones do |
| Time.MktimeSkel | libphoenix/time/time.c:317-341 | the algorithm on signed seconds: the second named by fields of any size, negative ones too, for exactly those whose arithmetic fits |
| Time.RoundTrip | libphoenix/time/time.c:200-341 | on signed seconds, taking one apart and putting it together gives it back, before 1970 too |
| Time.Timegm | libphoenix/time/time.c:365-375 | on signed seconds, the second that any fields name, the fields brought into their ranges for the same second; fields in range stay as they are |
| TimeDeclared.GmtimeR | libphoenix/time/time.c:200-249 | EOVERFLOW exactly above the guard; all fields in their ranges and naming the given second exactly for the days whose arithmetic fits, which are all but the last three days and one second up to the guard |
| TimeDeclared.MktimeSkelT | libphoenix/time/time.c:317-341 | the second that fields of any size name, modulo 2^64, for exactly those whose `int` arithmetic fits |
| TimeDeclared.TimegmT | libphoenix/time/time.c:365-375 | for dates from 1970 on that fit, the second they name, the fields brought into their ranges for it; -1 and the fields left exactly for a date before 1970 or one the guard rejects; fields in range stay as they are |
| TimeDeclared.RoundTripT | libphoenix/time/time.c:200-341 | every second whose day fits comes back |
| RegexStrip.StepUnique | libphoenix/regex/engine.c:934-1045 | the specification of a step determines it |
| RegexStrip.IdleStep | libphoenix/regex/engine.c:934-1045 | a step on a code that nothing accepts leaves a closed set alone |
| RegexStep.StepLarge | libphoenix/regex/engine.c:934-1045 | with byte arrays, exactly the least closed set with the given states and the moves of the others; the restarting scan ends |
| RegexStep.StepSmall | libphoenix/regex/regexec.c:65-86 | the same with one word |
| RegexStep.StepBoth | libphoenix/regex/regexec.c:113-135 | the two agree where the strip fits a word |
| RegexLang.SingleAccepts | libphoenix/regex/engine.c:953-985 | the texts of a symbol, its character, any, or one of its set, are those on which the engine moves |
| RegexSegment.SymbolDenotes | libphoenix/regex/engine.c:955-985 | a character operator denotes the texts of one character it accepts |
| RegexSegment.CatDenotes | libphoenix/regex/engine.c:934-1045 | code behind code denotes concatenation |
| RegexSegment.PlusDenotes | libphoenix/regex/engine.c:990-1002 | the loop denotes one or more |
| RegexSegment.QuestDenotes | libphoenix/regex/engine.c:1003-1009 | the option denotes the language and the empty text |
| RegexSegment.GroupDenotes | libphoenix/regex/engine.c:1010-1013 | parentheses denote what is between them |
| RegexSegment.ChoiceDenotes | libphoenix/regex/engine.c:1014-1037 | a choice of any number of alternatives denotes their union |
| RegexCode.SegmentMoves | libphoenix/regex/regcomp.c:1528-1547 | code copied elsewhere is well formed there and denotes the same |
| RegexChain.ChainAccepts | libphoenix/regex/engine.c:838-918 | stepping along a text, the last state is on exactly behind the texts of the language |
| RegexEngine.SlowSmall | libphoenix/regex/engine.c:838-918 | the greatest end of a match from the start, or none exactly if no prefix is in the language |
| RegexEngine.Match.Slow | libphoenix/regex/engine.c:838-918 | the same with byte arrays |
| RegexEngine.FastSmall | libphoenix/regex/engine.c:747-835 | a match exactly if some substring is in the language, at the first end of one; the place reported is the last at which just the first states are on, and one match that ends there begins at or behind it |
| RegexEngine.Match.Fast | libphoenix/regex/engine.c:747-835 | the same with byte arrays |
| RegexCold.ColdUnique | libphoenix/regex/engine.c:763-775 | the place reported is determined |
| RegexCold.GoesCold | libphoenix/regex/engine.c:763-775 | the matcher goes cold exactly if every move on the character leads to a first state |
| RegexCold.ColdIsLate | libphoenix/regex/engine.c:763-775 | for one expression and one text, one does |
| RegexLeftmost.Crosses | libphoenix/regex/engine.c:763-836 | the moves on a character lead to the end over the rest of a text exactly if a match that is underway before the character ends there |
| RegexLeftmost.EarlyIsLost | libphoenix/regex/engine.c:763-775 | a match that begins before the place reported was lost there: all moves led to first states, and one of them goes on to its end |
| RegexLeftmost.LostIsMissed | libphoenix/regex/engine.c:238-259 | wherever the code can lose a match there is a text whose leftmost match is missed |
| RegexLeftmost.LeftmostExactly | libphoenix/regex/engine.c:238-259 | the answer of the matcher is the leftmost and longest match in every text exactly if the code never loses a match |
| RegexLeftmost.AnswerUnique | libphoenix/regex/engine.c:238-259 | there is one answer for a text |
| RegexLeftmost.TameNeverLost | libphoenix/regex/engine.c:763-775 | no match is lost if the end is a first state, or each character that leads to a first state also leads from a first state to another one |
| RegexLeftmost.LostThere | libphoenix/regex/engine.c:763-775 | one expression that loses a match |
| RegexLeftmost.TwiceNeverLost | libphoenix/regex/engine.c:763-775 | another, that leads back to its first states and loses none |
| RegexCompile.InsertedKeeps | libphoenix/regex/regcomp.c:1582-1615 | an operator inserted before code leaves it denoting the same, one place on |
| RegexCompile.Parse.Insert | libphoenix/regex/regcomp.c:1582-1615 | the operator is at its place with the distance to the end, what was there is one place on |
| RegexCompile.Parse.Plus | libphoenix/regex/regcomp.c:454-457 | `+` denotes one or more of the operand |
| RegexCompile.Parse.Star | libphoenix/regex/regcomp.c:447-453 | `*` denotes any number of them |
| RegexCompile.Parse.Option | libphoenix/regex/regcomp.c:458-466 | `?` denotes the operand or nothing |
| RegexCompile.CountedMore | libphoenix/regex/regcomp.c:1154-1161 | one copy in front takes one off both counts |
| RegexCompile.CountedOption | libphoenix/regex/regcomp.c:1138-1149 | one option in front takes one off the upper count |
| RegexCompile.Parse.Repeat | libphoenix/regex/regcomp.c:1101-1165 | for every language and every pair of counts, unbounded too, well-formed code that denotes L^from to L^to, the code before it untouched |
| RegexCompile.Parse.Alternatives | libphoenix/regex/regcomp.c:306-343 | bars between any number of alternatives denote their union, every distance landing on its partner; an error exactly for an empty one |
| RegexWhole.Compile | libphoenix/regex/regcomp.c:306-495 | for every expression of characters, groups, concatenation, repetition, bounds and alternatives, well-formed code that denotes its language, or the error that stands first: REG_EMPTY where an alternative or what is in parentheses has no code, though not for `()`, and REG_BADRPT where nothing or a repetition is repeated |
| RegexWhole.Regcomp | libphoenix/regex/regcomp.c:257-267 | the code between two end marks, free of anchors and word marks; an error exactly for a fault inside or an expression without code |
| RegexWhole.Matcher | libphoenix/regex/engine.c:238-259 | a match exactly if there is one; it is the first from the cold place on and the longest there, and the leftmost of all if the code never loses a match |
| RegexWhole.Regexec | libphoenix/regex/regexec.c:157-182 | an expression compiled and looked for, with words or with arrays: the error of the expression, no match exactly if there is none, or the matcher's answer for its code, which is the longest match where it begins and the leftmost if the code never loses one |
| RegexWhole.FaultLaw | libphoenix/regex/regcomp.c:306-495 | what may be repeated and what not, and where an expression without code is an error |
| RegexWhole.FindSymbol | libphoenix/regex/engine.c:953-985 | in a text of one character a character finds itself, `.` all, and a set exactly its characters |
| RegexLaws.FindWord | libphoenix/regex/regexec.c:157-182 | a word is found exactly in the texts it occurs in, and where it occurs |
| RegexLaws.StarLaw | libphoenix/regex/regcomp.c:446-466 | `+` is the expression and then `*`, `*` is nothing or `+`, `?` is the expression or nothing |
| RegexLaws.NoneLaw | libphoenix/regex/regcomp.c:1101-1165 | `{0}` has the empty text only |
| RegexLaws.OneLaw | libphoenix/regex/regcomp.c:1101-1165 | `{1}` changes nothing |
| RegexLaws.OpenBoundLaw | libphoenix/regex/regcomp.c:1101-1165 | `{1,}` is `+` and `{0,}` is `*` |
| RegexLaws.BoundStepLaw | libphoenix/regex/regcomp.c:1101-1165 | from two on, bounds are the expression once and then bounds one lower |
| RegexLaws.ChoiceLaw | libphoenix/regex/regcomp.c:306-345 | parentheses change nothing, and alternatives have exactly the texts of each |
| RegexWhole.NotLeftmost | libphoenix/regex/engine.c:238-259 | an expression and a text for which the match found is not the leftmost |
| Glob.EscapedOnlyItself | libphoenix/regex/fnmatch.c:141-152 | any string can be quoted to a pattern that has that string only |
| Glob.SpelledIsRead | libphoenix/regex/fnmatch.c:165-230 | any list of characters and ranges can be written as a bracket expression and is read back |
| Glob.UnclosedIsLiteral | libphoenix/regex/fnmatch.c:130-132 | a bracket that is not closed stands for itself |
| Glob.PatternLaw | libphoenix/regex/fnmatch.c:60-163 | what a pattern that begins with `?`, `*`, a quoted or a plain character stands for, by the rest of it |
| Glob.BracketLaw | libphoenix/regex/fnmatch.c:166-231 | a bracket expression stands for the characters among its elements, with `!` or `^` for all others |
| Fnmatch.Rangematch | libphoenix/regex/fnmatch.c:165-230 | an error exactly if the bracket is not closed; otherwise the end of the expression and whether the character is in the set or, negated, is not |
| Fnmatch.Star | libphoenix/regex/fnmatch.c:86-119 | a star stands for every string, though the rest is not tried at the end |
| Fnmatch.Bracket | libphoenix/regex/fnmatch.c:120-140 | a set or a literal bracket takes one character |
| Fnmatch.Fnmatch | libphoenix/regex/fnmatch.c:60-163 | ends, and matches exactly the strings that are concatenations of what the pattern's items stand for |
| RawFile.FullRead | libphoenix/stdio/file.c:327-345 | as many bytes as are there, however few each read gives |
| RawFile.FullWrite | libphoenix/stdio/file.c:348-360 | all the bytes, in order, at the position |
| Stream.Stream.Fread | libphoenix/stdio/file.c:363-440 | the bytes, the count of items, the position and the flags are those of an unbuffered read |
| Stream.Stream.Fwrite | libphoenix/stdio/file.c:453-514 | content, position and count are those of an unbuffered write; a line-buffered stream keeps no newline back |
| Stream.Stream.FlushLines | libphoenix/stdio/file.c:490-497 | what is written up to the last newline is not lost, doubled or reordered |
| Stream.Stream.Flush | libphoenix/stdio/file.c:605-629 | the program sees no change, and the file and its position are what the program sees |
| Stream.Stream.Seek | libphoenix/stdio/file.c:688-693 | the position and the answer are those of an unbuffered seek |
| Stream.Run | libphoenix/stdio/file.c:327-693 | every sequence of reads, writes, flushes and seeks gives the answers, the content, the position and the marks for end of file and error it would give without a buffer, for every buffer size and access |
| StreamLaws.RunApart | libphoenix/stdio/file.c:327-693 | a run may be cut anywhere: the rest is a run from what the beginning left |
| StreamLaws.TellLaw | libphoenix/stdio/file.c:688-720 | `ftell` answers where `fseek` went and as many bytes further on as were read, and moves nothing |
| StreamLaws.RefusedLaw | libphoenix/stdio/file.c:688-693 | a place before the beginning is refused and nothing moves |
| StreamLaws.StepLaw | libphoenix/stdio/file.c:688-693 | steps from a place add up |
| StreamLaws.EndLaw | libphoenix/stdio/file.c:688-693 | at the end nothing is read and the mark is set; its place is the number of bytes read from the beginning |
| StreamLaws.WriteLaw | libphoenix/stdio/file.c:327-693 | what was written is read back from there |
| StreamLaws.ElsewhereLaw | libphoenix/stdio/file.c:327-693 | what is elsewhere in the file is what it was |
| StreamLaws.ReadLaw | libphoenix/stdio/file.c:363-440 | bytes read in two parts are the bytes read at once |
| StreamLaws.ReadMarks | libphoenix/stdio/file.c:363-440 | and they leave the same marks and place |
| StreamLaws.ItemLaw | libphoenix/stdio/file.c:363-440 | the count is that of the whole items, and the mark is set exactly if bytes are missing |
| StreamLaws.AccessLaw | libphoenix/stdio/file.c:363-514 | without the right access nothing moves and the error is marked |
| PathNames.TextAgrees | libphoenix/unistd/dir.c:155-270 | as long as everything fits, resolution of the text is that of its list of names on a stack |
| PathNames.AfterLinkNames | libphoenix/unistd/dir.c:249-262 | the text of a link before the rest has the names of both |
| PathNames.ResultIsResolved | libphoenix/unistd/dir.c:155-270 | a result has proper names only and no link on the way to it |
| PathNames.ResolveTwice | libphoenix/unistd/dir.c:155-270 | the text of a result has no empty name, `.` or `..`, and resolves to itself |
| PathNames.TextTwice | libphoenix/unistd/dir.c:155-270 | text with the names of a result resolves to it in buffers of the same size |
| PathLaws.LinkLaw | libphoenix/unistd/dir.c:217-262 | a link in a path from the root is its text in its place: below the place of the link if relative, from the root if absolute, with one more link counted, for every rest of the path and every number of links so far; too long exactly if text and rest do not fit |
| PathLaws.SelfLink | libphoenix/unistd/dir.c:217-262 | a link to itself is ELOOP |
| PathLaws.SlashLaw | libphoenix/unistd/dir.c:176-186 | more slashes are as one |
| PathLaws.DotLaw | libphoenix/unistd/dir.c:187-189 | `.` means nothing |
| PathLaws.DotDotLaw | libphoenix/unistd/dir.c:190-194 | `..` behind a name that is no link takes it back |
| PathLaws.RootLaw | libphoenix/unistd/dir.c:190-194 | above the root is the root |
| PathLaws.MissingLaw | libphoenix/unistd/dir.c:219-230 | a missing name is ENOENT unless it is the last one and may be missing |
| PathResolve.NextName | libphoenix/unistd/dir.c:172-181 | the name, and the text behind the slashes after it |
| PathResolve.Pop | libphoenix/unistd/dir.c:190-194 | the last name and its slash are taken off the result |
| PathResolve.Push | libphoenix/unistd/dir.c:196-203 | the name stands behind the others, terminated, inside the buffer |
| PathResolve.Prepend | libphoenix/unistd/dir.c:249-262 | the link's text and a slash stand before the text that is left, which is intact |
| PathResolve.Follow | libphoenix/unistd/dir.c:210-262 | links, missing leaves, errors, the limit of links and truncation are told apart as specified |
| PathResolve.ResolveAbspath | libphoenix/unistd/dir.c:155-270 | ends, stays inside both buffers, and gives the text, the length or the error of the specified resolution |
| PathResolve.ResolveTwiceOver | libphoenix/unistd/dir.c:155-270 | a result resolved again, in the buffers, is the same text |
| PipeRing.Ring.Free | phoenix-rtos-posixsrv/pipe.c:93-99 | the size less what is held |
| PipeRing.Ring.Write | phoenix-rtos-posixsrv/pipe.c:185-218 | as much as there is room for goes behind the contents |
| PipeRing.Ring.Read | phoenix-rtos-posixsrv/pipe.c:221-256 | the oldest bytes, as many as asked for and there, leave the contents |
| Pipe.Pipe.FeedReaders | phoenix-rtos-posixsrv/pipe.c:290-296 | waiting readers get the bytes in order, each woken once with its exact count |
| Pipe.Pipe.WriteRequest | phoenix-rtos-posixsrv/pipe.c:271-329 | the request moves as many bytes as readers and ring can take, waits or is refused exactly if none; the invariants hold |
| Pipe.Pipe.Refill | phoenix-rtos-posixsrv/pipe.c:355-367 | waiting writers give the reader what it needs and then fill the ring, in order |
| Pipe.Pipe.ReadRequest | phoenix-rtos-posixsrv/pipe.c:332-396 | the request gets as many bytes as there are in ring and waiting writers, and otherwise is at the end, refused or waits; the invariants hold |
| Pipe.Run | phoenix-rtos-posixsrv/pipe.c:271-396 | in every run, at each moment: every request moves exactly as many bytes as it can, is turned away or waits; those that wait are woken in turn, each once, with its exact count, and nothing else in its buffer is touched; the bytes given to readers and then the ring's are those accepted from writers in order; all that wait are readers of an empty ring or writers to a full one |
| PipeLaws.BrokenLaw | phoenix-rtos-posixsrv/pipe.c:271-396 | -EPIPE for a writer without readers, the end for a reader of an empty pipe without writers, 0 for nothing, and nothing else changes |
| PipeLaws.WaitLaw | phoenix-rtos-posixsrv/pipe.c:271-396 | a reader of an empty pipe and a writer to a full one wait behind the others, or get -EWOULDBLOCK |
| PipeLaws.WriteLaw | phoenix-rtos-posixsrv/pipe.c:271-396 | with nobody waiting as many bytes as fit go behind those held |
| PipeLaws.ReadLaw | phoenix-rtos-posixsrv/pipe.c:271-396 | with nobody waiting a reader gets the oldest bytes, the rest of its buffer stays |
| PipeLaws.ThroughLaw | phoenix-rtos-posixsrv/pipe.c:271-396 | what is written to an empty pipe is what the next reader gets, and it is empty again |
| Objects.Table.Create | phoenix-rtos-posixsrv/posixsrv.c:131-146 | the object is in the tree with one reference, the cache agrees |
| Objects.Table.Get | phoenix-rtos-posixsrv/posixsrv.c:71-96 | through the cache or not, the object with the id unless it is absent or destroyed, with one reference more |
| Objects.Table.Ref | phoenix-rtos-posixsrv/posixsrv.c:99-104 | one reference more, no other object touched |
| Objects.Table.Put | phoenix-rtos-posixsrv/posixsrv.c:107-128 | one reference less; released exactly if it was the last one of a destroyed object, the cache forgetting it |
| Objects.Table.Destroy | phoenix-rtos-posixsrv/posixsrv.c:65-68 | the object is stuck exactly if nobody holds a reference |
| Objects.ReleasedExactly | phoenix-rtos-posixsrv/posixsrv.c:65-128 | the destroyed objects without a reference are those released, each once, and those stuck |
| Objects.Run | phoenix-rtos-posixsrv/posixsrv.c:65-146 | in every run the answers are those of a table that looks every id up, and the tree, the counts, the flags, the cache and the releases are those that the commands, replayed, make |
| Objects.FatesOfRun | phoenix-rtos-posixsrv/posixsrv.c:65-146 | at every moment of a run an object is in the table until it is released, once, and only when it is destroyed and nobody holds it |
| Objects.ReleasedWhen | phoenix-rtos-posixsrv/posixsrv.c:107-128 | released is exactly what was destroyed, was not destroyed unheld, and is held by nobody |
| Objects.UnheldWhen | phoenix-rtos-posixsrv/posixsrv.c:65-68 | the objects that stay for good are exactly those destroyed at a moment with no reference |
| Objects.UnheldExample | phoenix-rtos-posixsrv/posixsrv.c:65-128 | created, given back and destroyed: such an object |
| Objects.DestroyedNotGiven | phoenix-rtos-posixsrv/posixsrv.c:71-96 | once destroyed, an object is never handed out again |
| Objects.HeldCounts | phoenix-rtos-posixsrv/posixsrv.c:65-146 | in every run the references held are those given and not put back |
| Objects.CreatedIsFound | phoenix-rtos-posixsrv/posixsrv.c:65-146 | an object is found by its id from its creation until it is destroyed |
| Objects.CreatedIsNew | phoenix-rtos-posixsrv/posixsrv.c:65-146 | a new object is none of those before and its id was not in use |

## Left out

- Regular expression text: the parser of patterns, bracket expressions, anchors, word marks, back references, the sub-match search and the prescreen; the code generator is modelled on expressions.
- RegexCompile.Parse.Insert: growth of the strip and its failure are not modelled; the strip is a sequence, and the positions of parentheses are not kept.
- Malloc.Allocator.ChunkAdd: the lists in bins are sequences, and the trees of large bins maps from sizes to lists; the trees in memory are those of the tree modules.
- Malloc.Allocator.ChunkRemove: the same; how the next chunk takes over a node in memory is stated in MallocHead.
- Allocator: the contents of blocks, `calloc`, locks, 64-bit targets and a heap at the very top of the address space.
- Bignum.Bignum.ShiftLeft: a shift by 0 is undefined in the code and not modelled.
- Printing: signs, padding, hexadecimal form, infinities, the special path for zero, the trimming of trailing zeros and the parser of formats.
- Time.Gmtime: takes seconds as signed; the declared type is that of TimeDeclared.GmtimeR.
- Time.MktimeSkel: signed and unbounded sums; those of the declared type are in TimeDeclared.MktimeSkelT.
- Time.RoundTrip: on signed seconds; TimeDeclared.RoundTripT is for the declared type.
- Time.Timegm: on signed seconds; TimeDeclared.TimegmT is for the declared type. `struct tm` is a value that is returned instead of written through a pointer; time zones, `strftime` and the clock calls are not modelled.
- Fnmatch.Fnmatch: flags are 0 and characters compare by code, without a locale's collation.
- Streams: failing reads and writes, `setvbuf`, `ungetc`, `popen`, append mode and unbuffered streams.
- Stream.Run: writes have items of one byte, since the size only decides the count that is returned.
- Paths: `resolve_path` around it, which copies the path and adds the working directory; texts of links do not contain the terminator.
- Pipes: the handshakes of open, close and link, events, and the failure to create one.
- Objects: names in the file system; the id tree appears as a map, its own behaviour being proved in the tree modules, and ids are not in use when they are given.
- The kernel, drivers, the loader, the C library's string, math and sorting functions, and thin wrappers of system calls, which would add easy members only.
