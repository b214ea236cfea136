# Page table visualisation: a verified model

This project models the three parts of the page table visualiser that compute something
exactly, and proves what they are for.

1. **Space-filling curves** (`vis/scurve/scurve`). A linear offset becomes a point of an
   n-dimensional cube and back. Proved for every dimension and every size: each curve is a
   bijection; Hilbert, H-curve and ZigZag move by one unit along one axis at every step; the
   H-curve closes; the Gray curve flips one bit per step, the wrap included; the Z-order
   respects the componentwise order; Hilbert sub-cubes are visited one after the other.
2. **Page table dumps** (`code/OSX/uptdump/main.c`, `code/common/pt_printer.c`) **and their
   consumers** (`vis/scurve/pt.py`, `vis/scurve/binvispt`). What the nested table walks print is
   compared, on any memory, tables that refer to themselves included, with the translations that
   sections 4.5 and 4.6 of the Intel 64 and IA-32 Architectures Software Developer's Manual,
   volume 3A, and section B3.5 of the ARMv7-A Architecture Reference Manual define address by
   address, reserved bits and disabled walks included. The two agree except under conditions that
   are proved exactly. The IA-32e dump is followed through the parser's map to the windows that
   are drawn and the flags they show.
3. **The crash dump run table** (`code/winrt`). The generated layout, the table that a C compiler
   makes of it, and the first-match lookup that inverts it.

## How it is organised

| file | content |
|---|---|
| `Bits.dfy` | `<<`, `>>`, `&`, `\|`, `^` on natural numbers of any width, bit by bit |
| `BitUtils.dfy` | `utils.py`: Gray codes, rotations, trailing set bits, bit fields and bit lists |
| `Grid.dfy` | points refined one bit per coordinate; unit steps |
| `Hilbert.dfy`, `HilbertLoops.dfy` | the Hilbert state machine, its theorems, and the loops of `hilbert.py` |
| `Interleave.dfy`, `InterleaveLoops.dfy` | bit interleaving and the loops shared by the next two |
| `GrayCurve.dfy`, `ZOrder.dfy` | the Gray curve and the Z-order curve |
| `ZigZag.dfy`, `HCurve.dfy` | the ZigZag traversal and the H-curve |
| `Dump.dfy` | printed lines and picking lines from a dump |
| `PageTables.dfy` | entries of IA-32e tables, and the reference translation |
| `PageWalk.dfy`, `WalkTranslation.dfy` | the dumper and its agreement with the reference |
| `References.dfy` | the dumped references to tables |
| `DumpParser.dfy` | the map of pages made from a dump |
| `RefusedTables.dfy` | when a dump can be parsed at all |
| `Windows.dfy`, `WindowLoops.dfy` | folding pages into windows |
| `Pipeline.dfy` | from page tables to windows |
| `ArmWalk.dfy` | the ARM dumper and its agreement with the reference |
| `RunTable.dfy` | the crash dump run table |

Loops and objects that are updated in place are methods and classes, each proved equal to a
function of its inputs; the theorems are lemmas about those functions. The curve functions recurse
on the *last* digit of an offset. What the next digit means then depends only on the state reached
on the digits before it, which is what makes the induction of the unit-step theorems go through:
`Hilbert.Linked` says that the points of two consecutive offsets differ by one in a coordinate c,
and that the exit corner of the first cell touches the entry corner of the second across c.

Inputs that the program gets from outside are parameters: physical memory is a function from
table addresses to entries, the debugger output is a sequence of lines, and the order in which a
Python dictionary yields its pages is the order of a sequence. Integers are unbounded where Python's
are; 32-bit wrap-around is written out where C code depends on it.

## Where the code falls short of what it is for

* The dumper does not look at reserved bits. An address is mapped exactly when one printed page
  covers it, unless its entries lead to a page over a reserved bit, where the processor faults
  (`WalkTranslation.WalkIsTranslation`, with the inputs `WalkTranslation.ReservedBitPrinted`). The
  condition is followed to the parsed map (`DumpParser.HeldIsTranslated`) and to the windows
  (`Pipeline.WindowIsMapped`).
* A page's printed destination contains every bit from 12 to 55 of its entry. For a mapped address it
  is the frame exactly when bits 52 to 55 and, for large pages, the PAT bit are clear
  (`WalkTranslation.WalkIsTranslation`, `PageTables.FrameIff`), with the input
  `WalkTranslation.PatBitPrinted`. An entry is followed to the right table exactly when its bits 52
  to 55 are clear (`PageTables.TableAddressIff`); otherwise mapped addresses can be missing from the
  dump (`WalkTranslation.HighBitMisleads`).
* Without a chosen range, `binvispt` can place a page of an IA-32e dump exactly when it lies in the
  lower half of the address space; a page in the upper half ends in an IndexError
  (`Windows.DefaultRangeFits`, with the page `Windows.UpperHalfFails`). With a chosen range, pages that
  begin in the window that holds `stop` are not skipped, but that window is only there if the
  remainder of `start` by the window size is neither 0 nor above that of `stop`; otherwise they end in
  an IndexError (`Windows.ChosenRangeFits`, `Windows.PageAtStopFails`).
* The message about the address that is not read has no line end. The parser fails on a 2-MByte
  page printed behind it, and then there is no map at all, exactly if in some page directory that
  the walk reaches the next present entry after a reference to that address is one of a 2-MByte page
  (`RefusedTables.ParseFailsIff`, with the input `RefusedTables.RefusedFails`).
* A window shows all tested flags of the pages over it exactly when one of the pages has them all
  (`Windows.ShowsAllIff`, with the window `Windows.WriteMissed`). If one does, the order in which the
  dictionary yields the pages does not matter (`Windows.OrderFree`); if none does, it does
  (`Windows.OrderMatters`).
* `zorder.py` leaves the caller's list reversed. A second call on the same list agrees with the
  first exactly when the list is a palindrome (`ZOrder.IndexTwice`, `ZOrder.SecondIndexDiffers`).
* The lookup in the run table misses a run that ends at 2^32, whose end wraps to 0, and every run if
  the first one begins at 0; a place from 2^32 on wraps (`RunTable.LookupInRun`,
  `RunTable.LastPageMissed`, `RunTable.LargeFileWraps`).
* The dump of TTBR1 starts at address 0, below the addresses TTBR1 translates; those lines follow
  the live ones in the dump (`ArmWalk.DumpIsTranslation`, with the input `ArmWalk.UnusedIsPrinted`).
* The ARM dump ignores TTBCR.PD0 and PD1, takes a register that is 0 for an absent table, and takes a
  level-1 descriptor with both type bits for a section. What it shows of an address is its mapping
  exactly when the tables have no section or small page for it, or are shown just when its walk does
  not fault (`ArmWalk.DumpIsTranslation`, with the input `ArmWalk.DisabledIsPrinted`).
* The address of an ARM large page is shifted by 16 where 12 is meant: it is right exactly in the
  first 64 KBytes of each megabyte (`ArmWalk.LargePlaceIff`).
* The dump prints the flags of the page's own entry, where the processor combines those of all
  levels. The two agree exactly when the entry grants only what the entries of all levels grant
  (`WalkTranslation.WalkIsTranslation`, with the input `WalkTranslation.UpperRightsIgnored`), and under
  that condition the six flags of the parsed page are the right ones (`DumpParser.HeldIsTranslated`).
* `parseruns.py` appends `000` to numbers of the debugger, which have no `0x` below ten, and the C
  compiler then reads them in decimal. An address inside a reported run is found where it is stored
  exactly under the condition of `RunTable.LookupInverts`: a row whose base has no `0x` leads to no
  right place, and a size without it reaches only 1000 bytes a page. `RunTable.OnePageCut` and
  `RunTable.OnePageShifted` are inputs, the first one among the script's own.

## Model

| member | source | states |
|---|---|---|
| BitUtils.GrayRoundTrip | vis/scurve/scurve/utils.py:7-22 | graycode and its inverse undo each other, in both orders, on every natural number |
| BitUtils.EnoughShifts | vis/scurve/scurve/utils.py:17-22 | any number of rounds of the igraycode loop from the bit length of x upwards gives the inverse Gray code |
| BitUtils.IGrayCode | vis/scurve/scurve/utils.py:11-22 | the loop with the limit ceil(log(x, 2)) + 1 computes the inverse Gray code, 0 included |
| BitUtils.GrayStep | vis/scurve/scurve/utils.py:7-8 | graycode(x) and graycode(x+1) differ in exactly one bit, number tsb(x) |
| BitUtils.GrayOfOnes | vis/scurve/scurve/utils.py:7-8 | the last Gray code of n bits has only its top bit set, so that the code closes |
| BitUtils.Tsb | vis/scurve/scurve/utils.py:70-79 | the loop counts the set bits below the lowest clear bit; its width limit never cuts the count short |
| BitUtils.TrailingSetBits | vis/scurve/scurve/utils.py:70-79 | the count t is such that bit t is clear and all bits below it are set |
| BitUtils.TrailingSetBitsRange | vis/scurve/scurve/utils.py:70-79 | the count is at most the width, and equals it exactly for 2^width - 1 |
| BitUtils.RotRoundTrip | vis/scurve/scurve/utils.py:46-67 | rrot and lrot by the same amount are inverse, for any amount and width |
| BitUtils.LRotIsRRot | vis/scurve/scurve/utils.py:46-67 | rotating left by i is rotating right by width - i |
| BitUtils.LRotXor | vis/scurve/scurve/utils.py:58-67 | rotation distributes over exclusive or |
| BitUtils.LRotPow | vis/scurve/scurve/utils.py:58-67 | rotation moves a single bit k to k + i, wrapped at the width |
| BitUtils.SetBit | vis/scurve/scurve/utils.py:82-92 | the addressed bit, counted from the top, becomes b; all other bits stay |
| BitUtils.OneBitRange | vis/scurve/scurve/utils.py:95-100 | a range of one bit is that bit, counted from the top |
| BitUtils.BitList | vis/scurve/scurve/utils.py:25-33 | the list has the bits of n, most significant first |
| BitUtils.Bits2Int | vis/scurve/scurve/utils.py:36-43 | the sum over the reversed list is the value of the list read in base two |
| BitUtils.BitListRoundTrip | vis/scurve/scurve/utils.py:25-43 | bits2int undoes bits |
| BitUtils.BitRangeIsSlice | vis/scurve/scurve/utils.py:95-100 | a bit range is the value of that slice of the list of bits, for every range |
| Hilbert.TransformRoundTrip | vis/scurve/scurve/hilbert.py:4-19 | transform and itransform are inverse for all entries, directions and widths |
| Hilbert.EntryStep | vis/scurve/scurve/hilbert.py:22-36 | entry(w) xor 2^direction(w) xor entry(w+1) is 2^tsb(w), and sub-cube w+1 is entered on the side facing sub-cube w |
| Hilbert.LastExit | vis/scurve/scurve/hilbert.py:22-36 | the last sub-cube is left at the corner 2^(n-1) of the canonical run |
| Hilbert.CellStep | vis/scurve/scurve/hilbert.py:53-58 | in any state, the corners visited for consecutive digits differ in exactly one bit |
| Hilbert.FaceStep | vis/scurve/scurve/hilbert.py:59-60 | in any state, the exit corner of one sub-cube touches the entry corner of the next across that bit |
| Hilbert.LinkedRun | vis/scurve/scurve/hilbert.py:39-61 | the invariant of every run: consecutive points differ by one in one coordinate and their states meet across it |
| Hilbert.HilbertUnitStep | vis/scurve/scurve/hilbert.py:39-61 | for every dimension, order and index, the next point differs in exactly one coordinate, by exactly one |
| Hilbert.IndexOfPoint | vis/scurve/scurve/hilbert.py:39-76 | hilbert_index undoes hilbert_point, and both pass through the same entries and directions |
| Hilbert.PointOfIndex | vis/scurve/scurve/hilbert.py:39-76 | hilbert_point undoes hilbert_index on every point of the cube |
| Hilbert.IndexRange | vis/scurve/scurve/hilbert.py:64-76 | every index is below 2^(n*m) |
| Hilbert.PointInCube | vis/scurve/scurve/hilbert.py:39-61 | every coordinate is below 2^m |
| Hilbert.RunStart | vis/scurve/scurve/hilbert.py:50-61 | a run of any order from state (e, d) starts at the corner whose bits are e |
| Hilbert.RunEnd | vis/scurve/scurve/hilbert.py:50-61 | and ends at the corner e xor 2^d |
| Hilbert.CurveStart | vis/scurve/scurve/hilbert.py:39-61 | index 0 is the origin, in every dimension and order |
| Hilbert.CurveEnd | vis/scurve/scurve/hilbert.py:39-61 | the last index is 2^m - 1 in the last coordinate and 0 in the others |
| Hilbert.FirstOrder | vis/scurve/scurve/hilbert.py:39-61 | the points of order 1 are the Gray codes rotated left by one, coordinate j being bit n-1-j |
| Hilbert.Nesting | vis/scurve/scurve/hilbert.py:51-60 | dropping k bits of every coordinate is the point of order m-k for the index without its last k digits |
| Hilbert.SubCube | vis/scurve/scurve/hilbert.py:51-60 | an index has leading digits g exactly when its point lies in the sub-cube of g |
| HilbertLoops.HilbertPoint | vis/scurve/scurve/hilbert.py:39-61 | the loops that set bits in the list p compute the curve of module Hilbert, for any h |
| HilbertLoops.HilbertIndex | vis/scurve/scurve/hilbert.py:64-76 | the loops compute the index of module Hilbert, for any list of the right length |
| Interleave.CollectBit | vis/scurve/scurve/graycurve.py:41-45 | bit a*n+x of the interleaved number is bit a of coordinate n-1-x |
| Interleave.CollectOfSpread | vis/scurve/scurve/graycurve.py:38-55 | gathering undoes scattering of the bits |
| Interleave.SpreadOfCollect | vis/scurve/scurve/graycurve.py:38-55 | scattering undoes gathering of the bits |
| Interleave.SpreadBit | vis/scurve/scurve/graycurve.py:48-55 | bit b of coordinate j of the scattered number is bit b*n + n-1-j of the number |
| Interleave.SpreadFlip | vis/scurve/scurve/graycurve.py:48-55 | flipping one bit of the number flips one bit of one coordinate and nothing else |
| InterleaveLoops.Scatter | vis/scurve/scurve/graycurve.py:50-54 | the loop that ors bits into list p scatters the bits of idx, for any idx |
| InterleaveLoops.Gather | vis/scurve/scurve/graycurve.py:39-45 | the loop that ors bits into idx gathers the bits of the coordinates, for any list of the right length |
| GrayCurve.Point | vis/scurve/scurve/graycurve.py:48-55 | the method scatters the Gray code of the offset |
| GrayCurve.Index | vis/scurve/scurve/graycurve.py:38-46 | the method computes the inverse Gray code of the gathered bits |
| GrayCurve.OffsetOfPoint | vis/scurve/scurve/graycurve.py:38-55 | index undoes point, and every point lies in the cube |
| GrayCurve.PointOfOffset | vis/scurve/scurve/graycurve.py:38-55 | point undoes index |
| GrayCurve.PointBit | vis/scurve/scurve/graycurve.py:48-55 | bit b of coordinate j of a point is the exclusive or of bits k and k+1 of the offset, k = b*n + n-1-j |
| GrayCurve.CurveStep | vis/scurve/scurve/graycurve.py:48-55 | consecutive points, the wrap included, differ in exactly one coordinate and there in exactly one bit |
| ZOrder.ReverseInPlace | vis/scurve/scurve/zorder.py:43-43 | the list holds its old elements in the opposite order |
| ZOrder.Index | vis/scurve/scurve/zorder.py:42-51 | the offset of the list as it was passed, with the list left reversed |
| ZOrder.Point | vis/scurve/scurve/zorder.py:53-60 | a new list holding the point of the offset |
| ZOrder.OffsetOfPoint | vis/scurve/scurve/zorder.py:42-60 | index undoes point, and every point lies in the cube |
| ZOrder.PointOfOffset | vis/scurve/scurve/zorder.py:42-60 | point undoes index |
| ZOrder.PointBit | vis/scurve/scurve/zorder.py:53-60 | bit b of coordinate j of a point is bit b*n + j of the offset |
| ZOrder.OffsetMonotone | vis/scurve/scurve/zorder.py:42-51 | a point nowhere larger than another, different one has the smaller offset |
| ZOrder.IndexTwice | vis/scurve/scurve/zorder.py:42-43 | a second call on the same list agrees with the first exactly when the list is a palindrome |
| ZOrder.SecondIndexDiffers | vis/scurve/scurve/zorder.py:42-43 | the list [0, 1] has another index when asked again |
| ZigZag.ZigZagUnitStep | vis/scurve/scurve/zigzag.py:55-67 | for every size, odd or even, and dimension, consecutive points differ in exactly one coordinate, by exactly one |
| ZigZag.CoordinateIs | vis/scurve/scurve/zigzag.py:55-67 | coordinate j of a point is digit j of the offset, counted backwards exactly if the sum of the coordinates after it is odd |
| ZigZag.FirstRow | vis/scurve/scurve/zigzag.py:55-67 | the curve begins at the origin and counts up the first coordinate |
| ZigZag.LastCoordinate | vis/scurve/scurve/zigzag.py:55-67 | the last coordinate is the first digit of the offset, never reflected |
| ZigZag.StepFlips | vis/scurve/scurve/zigzag.py:65-66 | a unit step in the digits changes the flip flag for the digits after them |
| ZigZag.OffsetOfPoint | vis/scurve/scurve/zigzag.py:40-67 | index undoes point |
| ZigZag.PointOfOffset | vis/scurve/scurve/zigzag.py:40-67 | point undoes index, and the index is below size^dimension |
| ZigZag.Point | vis/scurve/scurve/zigzag.py:55-67 | the loop that divides by powers of the size and reflects by the flag computes the reflected code, reversed |
| ZigZag.Index | vis/scurve/scurve/zigzag.py:40-53 | the loop that adds weighted digits computes the number with that reflected code |
| HCurve.FourTriangles | vis/scurve/scurve/hcurve.py:49-94 | the first half of the curve is four smaller first halves, the middle two run backwards |
| HCurve.SecondHalf | vis/scurve/scurve/hcurve.py:54-55 | the second half is the first half reflected through the centre |
| HCurve.XCorIsCor | vis/scurve/scurve/hcurve.py:49-81 | the unused xcor agrees with cor at d = 0, on negative indices too |
| HCurve.TriangleEnds | vis/scurve/scurve/hcurve.py:49-97 | the first half runs from (0, 0) to (n-2, n-1) |
| HCurve.CycleStep | vis/scurve/scurve/hcurve.py:49-97 | for every power of two from 2, each cell is next to the following one and the last is next to the first |
| HCurve.FirstHalf | vis/scurve/scurve/hcurve.py:49-97 | the first half of the indices gives exactly the cells with x < y or with x = y even |
| HCurve.IndexOfPoint | vis/scurve/scurve/hcurve.py:96-97 | an index is recovered from its cell, so no cell is visited twice |
| HCurve.PointOfIndex | vis/scurve/scurve/hcurve.py:96-97 | every cell of the grid is visited |
| PageTables.FrameIff | code/OSX/uptdump/main.c:152-152 | the printed destination of a page is its frame exactly when bits 52 to 55 and the low bits of a large page's field are clear |
| PageTables.TableAddressIff | code/OSX/uptdump/main.c:185-185 | an entry is followed to the table it refers to exactly when its bits 52 to 55 are clear; such an address is never refused |
| PageWalk.ReadPhysMem | code/OSX/uptdump/main.c:102-133 | a new buffer with the 512 entries of the table, or, for the refused address, null and the message that is printed without a line end |
| PageWalk.DumpPT | code/OSX/uptdump/main.c:135-171 | prints, after what was printed before, the records of a page table and nothing else, or the message about a refused table |
| PageWalk.DumpPD | code/OSX/uptdump/main.c:173-224 | prints the records of a page directory and of its page tables, in order, messages about refused tables included |
| PageWalk.DumpPDPT | code/OSX/uptdump/main.c:226-274 | prints the records of a page directory pointer table and all below it, in order, messages about refused tables included |
| PageWalk.WalkPT | code/OSX/uptdump/main.c:277-307 | prints the whole dump, messages about refused tables included |
| WalkTranslation.WalkCovering | code/OSX/uptdump/main.c:135-307 | on every memory, cyclic or not, exactly the page that a top-down lookup with the dumper's own address field finds is printed over an address, once, or none |
| WalkTranslation.WalkIsTranslation | code/OSX/uptdump/main.c:135-307 | if the tables on the way to it are followed rightly, at most one printed page covers an address below 2^48; one does if and only if the reference maps the address, exactly unless its entries lead to a page over a reserved bit; the page of a mapped address has its size and start, its flags are bits 1, 2 and 63 of its entry, and the rights left by all levels exactly when the entry grants only what the entries of all levels grant, and its destination is the frame exactly when bits 52 to 55 and a large page's PAT bit are clear |
| WalkTranslation.WalkIsPageEntry | code/OSX/uptdump/main.c:135-307 | if tables are followed rightly, the dump shows over an address exactly one line, for the page entry that bits 0 and 7 lead to: its indices, the start of its range, its bits 1, 2 and 63, and its address field |
| WalkTranslation.UserPagePrinted | code/OSX/uptdump/main.c:153-166 | a user page that must not be executed is printed as such, and is one |
| References.TopReferences | code/OSX/uptdump/main.c:284-299 | each entry of the PML4 table that is not 0, present or not, has exactly one reference line, with its address field; no other has one |
| References.MiddleReferences | code/OSX/uptdump/main.c:232-271 | the same for each present entry, that is no page, of each page directory pointer table that is walked |
| References.LowerReferences | code/OSX/uptdump/main.c:179-220 | the same for each such entry of each page directory that is walked |
| WalkTranslation.ReservedBitPrinted | code/OSX/uptdump/main.c:185-202 | two memories on which a page is printed over an address where every processor faults on a reserved bit |
| WalkTranslation.UpperRightsIgnored | code/OSX/uptdump/main.c:185-202 | a memory on which a page that no level above it allows to be written is printed as writable |
| WalkTranslation.PatBitPrinted | code/OSX/uptdump/main.c:185-202 | a memory on which a 2-MByte page is printed with a destination that is not its frame |
| WalkTranslation.HighBitMisleads | code/OSX/uptdump/main.c:288-304 | a memory on which a mapped address is missing from the dump |
| WalkTranslation.WalkOrdered | code/OSX/uptdump/main.c:145-156 | the pages are printed in increasing order, pairwise disjoint, aligned, and below 2^48 |
| DumpParser.ParseIa32e | vis/scurve/pt.py:135-177 | the loop builds the map from the records in order, or fails at a page printed behind the message about a refused table |
| DumpParser.SignExtendOrder | vis/scurve/pt.py:8-11 | sign extension keeps the order of 48-bit addresses, makes them canonical and keeps their low 48 bits |
| DumpParser.NoOverwrite | vis/scurve/pt.py:158-173 | on an ordered dump every 4K and 2MB line has its page in the map under its own key |
| DumpParser.KeyFromLine | vis/scurve/pt.py:158-173 | every key of the map is that of a 4K or 2MB line |
| DumpParser.EntryPerLine | vis/scurve/pt.py:158-173 | the map has as many entries as there are 4K and 2MB lines |
| DumpParser.HeldIsTranslated | vis/scurve/pt.py:13-65 | an address held by a page of a parsed dump is mapped exactly unless its entries lead there over a reserved bit; then the page has the bounds its translation calls for, and all six access flags exactly when the page entry grants only what the entries of all levels grant |
| DumpParser.TranslatedIsHeld | vis/scurve/pt.py:13-65 | if the dump can be parsed, every address mapped by a 4K or 2MB page is held by a page of the map under the key and with the bounds its translation calls for, and with its flags under the same condition |
| RefusedTables.ParseFailsIff | vis/scurve/pt.py:13-18 | the parser fails on the dump of a memory exactly when, in some page directory that the walk reaches, the next present entry after a reference to the refused address is that of a 2-MByte page |
| RefusedTables.RefusedFails | code/OSX/uptdump/main.c:114-118 | a memory with a mapped address, no entry on its way having bits 52 to 55 set, whose dump cannot be parsed |
| Windows.MergeRule | vis/scurve/binvispt:279-306 | the four tests in a row amount to: keep the window unless the page has kernel write, user write, user execute or user read and the window lacks it |
| Windows.FoldMember | vis/scurve/binvispt:264-306 | a window shows all six flags of one of the pages over it |
| Windows.ShowsAllIff | vis/scurve/binvispt:264-306 | a window shows every tested flag of the pages over it exactly when one page has them all |
| Windows.WriteMissed | vis/scurve/binvispt:279-306 | a window over kernel data and, met later, user code no longer shows that the kernel can write |
| Windows.OrderFree | vis/scurve/binvispt:245-306 | if one page has them all, any order of the pages gives the same four flags |
| Windows.ChainHasTop | vis/scurve/binvispt:264-306 | pages whose tested flags are ordered by inclusion have one with them all |
| Windows.OrderMatters | vis/scurve/binvispt:245-306 | if no page has them all, meeting a certain page last gives other flags |
| Windows.TouchesIsOverlap | vis/scurve/binvispt:249-259 | a page is folded into exactly the windows it overlaps, if there is no chosen range or the window that holds its start begins between start and stop; otherwise into none |
| Windows.CountIs | vis/scurve/binvispt:234-240 | there are as many windows as fit whole into the chosen range or the address space of the dump, none if stop is below start |
| Windows.OverMember | vis/scurve/binvispt:245-264 | the flags folded into a window are those of the pages over it |
| Windows.DefaultRangeFits | vis/scurve/binvispt:234-264 | without a chosen range, for any window size, a page of an IA-32e dump has its windows exactly when it lies in the lower half of the address space and a window is no larger than that space |
| Windows.UpperHalfFails | vis/scurve/binvispt:234-264 | the page at 2^47 of a dump has no window |
| Windows.ChosenRangeFits | vis/scurve/binvispt:239-264 | with any chosen range a page has its windows exactly when it begins in a window before start or past stop, or ends where the windows end |
| Windows.ChosenEnd | vis/scurve/binvispt:239-240 | where the windows of a chosen range end: before the window that holds stop, or with it if the remainder of start is neither 0 nor above that of stop |
| Windows.PageAtStopFails | vis/scurve/binvispt:253-264 | a page that begins at stop has no window and is not skipped |
| WindowLoops.Window.Update | vis/scurve/binvispt:279-306 | the four in-place tests give the merged flags |
| WindowLoops.FoldPage | vis/scurve/binvispt:249-308 | one page is folded into every window it lies over and into no other; an IndexError arises exactly when it reaches past the last window |
| WindowLoops.BuildWindows | vis/scurve/binvispt:234-308 | all pages are folded into their windows, in order, every window an object of its own with its own bounds, or some page does not fit |
| Pipeline.WindowIsFaithful | vis/scurve/binvispt:225-308 | for any range, chosen or not, in the windows that the constructor leaves, one is set exactly when the entries for one of its canonical addresses, the upper half included, lead to a 4-KByte or 2-MByte page that begins in a window of the chosen range; it has its own bounds and shows the six flags of such a page, one with the tested flags of all such pages exactly when there is one |
| Pipeline.WindowIsMapped | vis/scurve/binvispt:225-308 | such a window is set if and only if one of its addresses is mapped by a page that begins in a window of the chosen range, exactly unless addresses show in it only over reserved bits; without reserved bits, and with page entries that grant only what all levels grant, it shows the six flags that the translation of one of its addresses calls for |
| Pipeline.AllFitIff | vis/scurve/binvispt:245-264 | every page of the parsed dump has its windows exactly when the page that the entries for each address lead to has |
| Pipeline.DefaultFitsAll | vis/scurve/binvispt:234-264 | without a chosen range, for any window size, that is so exactly when the entries lead to no 4-KByte or 2-MByte page in the upper half, and to none at all if a window is larger than the address space |
| Pipeline.ChosenFitsAll | vis/scurve/binvispt:239-264 | with any chosen range, exactly when no page that begins in the windows from start to the one that holds stop ends past the last window |
| Pipeline.Draw | vis/scurve/binvispt:225-308 | the whole run, from page tables over dump and map, in any order of the dictionary, to windows: where entries keep bits 52 to 55 clear, it succeeds exactly when the dump can be parsed and the page that the entries for each address lead to has its windows; then every window shows what is visible in it, as WindowIsFaithful says |
| ArmWalk.RegisterBaseShift | code/common/pt_printer.c:174-174 | the two shifts of the base register keep bits 31:14-N |
| ArmWalk.ArmPtPrintPT | code/common/pt_printer.c:94-157 | prints the lines of a level-2 table, or that it could not be read |
| ArmWalk.ArmPtPrintTT | code/common/pt_printer.c:166-253 | prints, for TTBR1, the offset line, and the lines of a level-1 table and its level-2 tables, in order |
| ArmWalk.OffsetIsSplit | code/common/pt_printer.c:177-184 | the printed offset is where the addresses translated through TTBR0 end |
| ArmWalk.ArmPtPrint | code/common/pt_printer.c:255-311 | prints both tables with their sizes for TTBCR.N, or only the message that the long descriptor format is not supported |
| ArmWalk.Headings | code/common/pt_printer.c:266-310 | the dump has exactly the headings of the registers that are used and not 0, and after that of TTBR1 the first address it translates |
| ArmWalk.L2LineIs | code/common/pt_printer.c:117-151 | a level-2 descriptor is printed by its bits 1:0, with bits 31:16 for a large page and 31:12 for a small one |
| ArmWalk.L1LineIs | code/common/pt_printer.c:195-249 | a level-1 descriptor is printed by its bits 1:0 and 18, with bits 31:20 for a section and 31:24 for a supersection |
| ArmWalk.TableDump | code/common/pt_printer.c:94-253 | over every address that a table has an entry for, exactly the section or small page it is mapped to is printed, once, with its base; nothing is if one of its tables cannot be read |
| ArmWalk.DumpIsWalk | code/common/pt_printer.c:255-311 | for any registers the dump shows over every address what the level-1 and level-2 tables say, split at 2^(32-N), if the base register is set and the tables can be read, followed only by what the unused lower part of TTBR1's table says |
| ArmWalk.DumpIsTranslation | code/common/pt_printer.c:255-311 | that is the mapping of the address, under TTBCR.PD0, PD1 and a processor with or without PXN, exactly when the tables have no section or small page for it, or are shown just when its walk does not fault |
| ArmWalk.DisabledIsPrinted | code/common/pt_printer.c:306-310 | registers with PD1 set, and a memory whose section at 2^31 is printed though every access to it faults |
| ArmWalk.UnusedIsPrinted | code/common/pt_printer.c:186-186 | a section in the lower part of TTBR1's table is printed over an address that TTBR0 does not map |
| ArmWalk.LargePlaceIff | code/common/pt_printer.c:128-129 | the printed address of a large page is too high by 15 times its distance in the megabyte, modulo 2^32, so that it is the start of the page exactly in the first 64 KBytes |
| RunTable.ParseRuns | code/winrt/parseruns.py:60-69 | the loop prints one row for each PageCount line, in order, with that line's number as its size, the number of the nearest BasePage line before it as its base, and as its offset 0x21000 plus the bytes of the PageCount lines before it |
| RunTable.ScanRows | code/winrt/parseruns.py:62-69 | the scan by single lines produces those rows |
| RunTable.TwoRuns | code/winrt/parseruns.py:44-49 | two runs of the script's own data keep their own bases, the second a page later in the file |
| RunTable.ScanContiguous | code/winrt/parseruns.py:60-69 | each reported run is stored after the header and all earlier runs, without gaps |
| RunTable.PhysRead | code/winrt/dumper.c:39-65 | the scan with its early exits finds the first matching row before a row with base 0 |
| RunTable.TouchingSamePlace | code/winrt/dumper.c:57-57 | a preceding run that matches the first address of a run by the inclusive bound leads to the same place in the file |
| RunTable.LookupInRun | code/winrt/dumper.c:39-65 | an address inside a run is found exactly when the first run does not begin at 0 and the run ends below 2^32 or the preceding run touches the address, at its place modulo 2^32; otherwise it is not found |
| RunTable.LargeFileWraps | code/winrt/dumper.c:65-65 | a run whose end is stored past 2^32 is found at a place near the start of the file |
| RunTable.LastPageMissed | code/winrt/dumper.c:57-57 | a table whose only run ends at 2^32 and is not found |
| RunTable.LookupInverts | code/winrt/parseruns.py:60-69 | in the table that C makes of the generated rows, distance d into reported run k is found at header + earlier sizes + d exactly when that is below 2^32, the first run does not begin at 0, and either the base of row k has its prefix, its size as C reads it reaches d and ends below 2^32, or the row before, read as meant, ends at the address |
| RunTable.BareBaseWrong | code/winrt/parseruns.py:65-65 | a row whose base has no prefix leads no address of any run to its place |
| RunTable.OnePageCut | code/winrt/parseruns.py:41-41 | the run of one page among the script's own data is found up to byte 1000 only |
| RunTable.OnePageShifted | code/winrt/parseruns.py:64-69 | a run at page 1 is found at the wrong place |
| RunTable.StoredOnce | code/winrt/dumper.c:65-65 | no two addresses inside runs are stored at the same place |

## Left out

- Device, kernel and operating system access: ioctl and IOKit calls, Mach calls, the kernel extension, iOS and Android collectors; physical memory is a parameter.
- Drawing, colours, progress bars, option parsing, file entropy.
- `fromSize`, `dimensions` and the constructors' checks that use floating-point logarithms and powers; `__len__` and `__getitem__` with its IndexError. The models take dimension, order and size as they are.
- BitUtils.IGrayCode: takes ceil(log(x, 2)) for the exact value; a floating-point value that is larger changes nothing, by BitUtils.EnoughShifts.
- `natural.py`: plain positional digits.
- The iterator that `point` of `zigzag.py` returns is modelled as the list it yields.
- HCurve.CycleStep: starts at size 2; the grid of size 1 has one cell and no step.
- Register and attribute text (`DumpCR`, `tex`, `ap`, `cacheable`) and the printed flags that no consumer reads. Lines for references to tables keep their level, indices and destination; text fields are not split from strings.
- 1G pages in the parsed map: `parse_ia32e` reports their lines as unhandled.
- ARM supersections, declared unsupported: their lines are modelled, but nothing is claimed about the addresses they map. Of large pages only the printed address is compared with the right one.
- Faults that depend on the access and not only on the tables: permission, access flag and domain faults, and protection keys.
- `parse_arm`, whose loop over sections adds one key past the section.
- RunTable.LookupInverts: takes numbers without prefix to be single digits, as the debugger prints numbers below ten, and reported runs to be in order, not empty and disjoint.
- `code/win8/dump.c`, a 32-bit copy of the IA-32e walk.
- Reads from the run table that cross the end of a run, and unmapped addresses exactly at a run's end, which the inclusive test accepts.
