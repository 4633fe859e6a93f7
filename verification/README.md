# An EtherCAT master, modelled and proved

This project models the core of an EtherCAT master (the SOEM stack, and the two application files that depend on its
memory layout) in Dafny and proves properties of it. The rows of the table below cite the C and C++ code that each
member models.

Run `dafny verify dfyconfig.toml` to check all files.

## What is modelled

* **Topology and clock delays** (`Topology`, `ParentScan`, `PortOrder`, `DistributedClocks`, `DelayExactness`,
  `WrappedClocks`, `WrappedFirst`, `DelayPass`, `ConfigDc`, `WrapExamples`). The bus is a tree of slaves with a delay
  on every link; a frame runs through it and each slave latches the times at its ports. The master knows only the DL
  status words of the slaves and the latched times. Two passes over the slave list recover the tree and the delays.
* **Process image** (`FmmuMapping`, `FmmuWindows`, `FmmuMemory`, `ProcessImage`, `Segments`, `ImageLayout`, `MapGroup`,
  `ImageProperties`, `OverlapImage`). A cursor of bytes and bits hands every slave its part of the logical image, FMMU
  by FMMU, and the image is cut into segments for datagrams.
* **Process-data exchange** (`Wire`, `ProcessData`, `ProcessFrames`, `Transfers`, `LostFrames`, `ExchangeRefinement`,
  `MappedExchange`, `OverlapExchange`, `MappedOverlap`, `SlavePointers`, `MappingExamples`). The image goes out segment
  by segment, as LRW or as LRD and LWR, and is put together again with the help of an index stack. The bus is a row of
  slaves, each with one window of bits for its outputs and one for its inputs, those of its programmed FMMUs; any of
  the frames may be lost. A clock datagram is answered only by the slave whose station address it has, at the register
  of the system time. Working counters follow section 5.4 of IEC 61158-4-12.
* **Mailbox protocols**: Ethernet frames (`EoeSend`, `EoeReceive`, `EoeReassembly`, `EoeInbox`; section 5.7 of
  ETG.1000.6), service data objects (`SdoMessages`, `SdoWire`, `SdoRead`, `SdoUpload`, `SdoWrite`; section 5.6 of
  ETG.1000.6) and files (`Foe`; section 5.8 of ETG.1000.6). The other side is a list or function of messages; `SdoWire`
  says how a slave that follows the protocol codes its own.
* **EEPROM** (`SiiCache`, `SiiWalk`, `SiiImage`): a byte cache with a bitmap, the search for a category, the PDO
  section, and the bytes of an EEPROM that holds given PDO records.
* **Frames** (`FrameBuilder`), **states** (`ReadMulti`, `ReadState`) and **PDO sizes** (`PdoMap`, `MappedSizes`).
* **Application** (`PublishedOffsets`, `PublishedVariables`, `PublishedWindow`, `CycleSemaphore`, `Registration`): the
  offsets that are published for other processes, and the semaphores that tell them of each cycle, with a master that
  reads and posts in separate steps and any number of clients in between.

Records that the code changes in place are arrays or classes here, changed in place by methods. Each method is tied to
a function of the state before, and the properties are proved about these functions. `Memory` holds bytes and copying,
`Bits` their bits, `Numbers` the smaller and the larger of two.

## Findings

Some promises hold only under a condition. The condition is part of the theorem, in both directions where not said
otherwise:

* A clock that wraps while the frame is behind a slave gives a wrong delay: all delays are true if and only if no clock
  wraps (`PassIsExact`, `Configure`, `FindDelays`, `WrapBreaksDelay`). Only for a wrap of the first slave this needs
  that at most two links lead on from it, the first with a delay; behind three links, or a link without delay, it may
  go unnoticed (`WrapMayGoUnnoticed`, `NoDelayGoesUnnoticed`).
* Only the group of the first slave with a clock learns that it has one (`GroupsAreTold`).
* The byte count of a mapping is not reset between passes; with three or more separate groups of sync managers an FMMU
  comes out too long (`LengthsAreRightIff`, `ScatteredIsWrong`).
* Sync managers in descending order are taken for neighbours, and memory that belongs to none is mapped
  (`DescendingIsMerged`); in ascending order that does not happen (`FmmusMapMemory`).
* In group 0 the pointers of the slave list fit the image exactly if it begins at logical address 0 (`PointsAtWindow`,
  `PointsAtSlot`).
* A branch without clocks takes a port of the split it hangs on if it is a line, as the comment in the code says for
  any branch; if it splits again it takes none (`LineTakesPort`, `SplitTakesNone`). The model follows the code.
* More than 64 segments lose part of the image (`CappedConservesIff`, `SixtyFifthIsLost`).
* A segment may end within the data of a slave of one to seven bits, which then counts twice (`MetOnceIff`,
  `CutInTwo`). It cannot end within whole bytes (`BytesAreUncut`), nor in an overlapped image (`SlotInOneSegment`).
* An overlapped image cannot be read with LRD: the address is moved by Obytes, although the inputs begin with the image
  (`LrdDeliversIff`). With LRW the replies are stored behind the outputs; they take as many bytes as the larger
  direction has, which is more than the returned size if there are more outputs than inputs (`MappedOverlap.Cycle`).
* The overlapping mapper also adds Obytes to the input address of a slave that has none, which is then no longer unset
  (`OverlapMapGroup`, `UnsetStaysIff`, `UnsetInputsAreMoved`).
* If the first frame of a cycle with a clock is lost, the next one is read at the places of the first
  (`NextIsMisread`).
* The working counter that the application expects is reached only if every slave has one FMMU per direction; with more
  it is never reached (`ExpectedCounterIsRight`, `CounterNeverReached`). If it is reached, nothing was lost that
  matters (`MappedExchange.Cycle`).
* An Ethernet frame above 2016 bytes is never delivered by the fragment reader, since its size field has six bits
  (`DeliversFrame`, `LongFrameIsRefused`).
* The reception of an Ethernet frame in one go takes a fragment with number 0 for the continuation of another frame if
  its size happens to be the position that is expected (`ConsecutiveIff`, `StartTakenForNext`).
* A read of an object in segments compares only the announced size with the buffer; it stays within the buffer if and
  only if the segments bring no more than that (`StaysInsideIff`, `LongerThanAnnounced`). By the protocol they do not
  (`ServedStaysInside`).
* Of an object above 65535 bytes only the size modulo 65536 is written, and an empty one outside complete access is
  read as four bytes (`SdoWrite.Writer.Write`, `NothingOf65536`).
* An abort that comes as a response for the object asked for, which the protocol does not provide for, is taken for a
  confirmation or the start of a transfer if it is the first answer (`AbortEnds`, `AbortAtFirst`); any other is
  noticed.
* By its comment, `ecx_siiPDO` reads the PDOs for outputs with argument 0; its caller (ethercatconfig.c:711-722) and
  the categories 50 and 51 have it the other way round. The model follows the code (`ReadImage`).
* An empty file is not written at all (`WrittenIsRead`). A busy slave is, by the comment in the code, to be served
  again; the code leaves the loop and reports success (`LostIfBusy`, `BusyLosesBytes`). The model follows the code.
* A broadcast state of 3 may be BOOT or a mixture of INIT and PRE_OP; the fast path takes it for BOOT
  (`FastPathIsExact`, `InitAndPreOpLookLikeBoot`).
* The offset published for the data of a slave is too low if a slave before it has one to seven bits, which have no
  byte count (`OffsetsAgreeIff`, `PublishedTooLow`).
* Reading the PDO sizes with and without complete access differs for slaves that report type 0 for sync manager 2 or 3
  (`BothWaysAgree`, `UntypedOutputsAreLost`).
* Datagrams in the middle of a frame are only found if they were added with `more`; the mark for the previous datagram
  always goes to the first one of the frame, although the comment speaks of the previous one (`FrameParsesBack`,
  `ThirdIsLost`). The model follows the code.

## Model

| member | source | states |
|---|---|---|
| `Topology.CountsOpenPorts` | 3rdparty/SOEM/soem/ethercatconfig.c:433-438 | The number of open ports of a slave is one plus the number of its children |
| `ParentScan.ScanSkipsRow` | 3rdparty/SOEM/soem/ethercatconfig.c:444-469 | The walk back crosses a complete row of sibling subtrees with the counter ending where it started less one per sibling, and never stops inside: every proper suffix counts negative |
| `ParentScan.ScanInRow` | 3rdparty/SOEM/soem/ethercatconfig.c:441-470 | In any row of the tree, the walk back from any of its slaves stops at that slave's parent |
| `ParentScan.ScanFindsParent` | 3rdparty/SOEM/soem/ethercatconfig.c:441-470 | From link counts alone, for every tree with at most three children per slave and every slave but the first, the scan returns the true parent |
| `ParentScan.FindParent` | 3rdparty/SOEM/soem/ethercatconfig.c:444-469 | The loop over the slave list computes that scan |
| `ParentScan.OpenPortsAreOpen` | 3rdparty/SOEM/soem/ethercatconfig.c:410-429 | For every word and each of the four ports: the port counts as open exactly if its bit for communication is set and its bit for a closed port is not |
| `ParentScan.ReadPorts` | 3rdparty/SOEM/soem/ethercatconfig.c:406-430 | The DL status word of a slave gives its open ports and their number: port p is open exactly if bit 9 + 2p of the word is set and bit 8 + 2p is not |
| `ParentScan.ConfigInit` | 3rdparty/SOEM/soem/ethercatconfig.c:404-470 | For every bus, from status words whose port bits show the active ports of the slaves, whatever the other bits are, each slave list entry gets exactly the active ports, their count, and its parent in the real tree |
| `DistributedClocks.PrevPortIsNearest` | 3rdparty/SOEM/soem/ethercatdc.c:172-213 | For any set of active ports and any port: the nearest active port before it in the cyclic order 0, 3, 1, 2, or itself if no other is active |
| `DelayExactness.PrevPortIsLast` | 3rdparty/SOEM/soem/ethercatdc.c:172-213 | Seen from a parent, the port before a link is the one through which the frame has come back last before it sets out for that link |
| `PortOrder.BusRest` | 3rdparty/SOEM/soem/ethercatdc.c:215-244 | For each slave in turn, the ports its parent has not handed out yet are those of the links still to come, beginning with its own |
| `DistributedClocks.ParentPort` | 3rdparty/SOEM/soem/ethercatdc.c:216-244 | Returns the first port not handed out in the order 3, 1, 2, 0, and hands it out |
| `DistributedClocks.FindEntryPort` | 3rdparty/SOEM/soem/ethercatdc.c:311-352 | Returns an active port with the lowest time stamp, the first of these in the order 0, 3, 1, 2 |
| `DistributedClocks.FindDcParent` | 3rdparty/SOEM/soem/ethercatdc.c:356-363 | Walks up to the nearest ancestor with a clock, or to the master, and to the child below it, on any list |
| `DistributedClocks.MeasureSlave` | 3rdparty/SOEM/soem/ethercatdc.c:295-409 | The statements for one slave with a clock change the list as Measure says: the entry port has the lowest stamp, the parent is the nearest ancestor with a clock and hands out its first open port, and the delay comes from the three spans of the stamps |
| `DelayExactness.StampDifference` | 3rdparty/SOEM/soem/ethercatdc.c:379-400 | Differences of 32-bit signed time stamps are the true spans as long as these stay below 2^31 |
| `DelayExactness.Int32Is` | 3rdparty/SOEM/soem/ethercatdc.c:379-405 | The reduction to 32 bits gives the number from -2^31 to 2^31 - 1 that differs by a multiple of 2^32 |
| `DelayExactness.HalfIs` | 3rdparty/SOEM/soem/ethercatdc.c:403-404 | Halving is exact up to one and rounds towards zero, for negative numbers as well |
| `DelayExactness.BelowOnePort` | 3rdparty/SOEM/soem/ethercatdc.c:368-381 | A slave whose parent has a single open port is measured at that port, at which no time passes |
| `DelayExactness.LaterIsNotShorter` | 3rdparty/SOEM/soem/ethercatdc.c:392-405 | Whatever the stamps are, a slave behind earlier children is measured at the delay of a first child or, in 32 bits, at up to 2^31 more |
| `DelayExactness.ThroughLink` | 3rdparty/SOEM/soem/ethercatdc.c:376-381 | The parent's stamps around a port span twice the link delay plus the time behind the link |
| `DelayExactness.InsideSlave` | 3rdparty/SOEM/soem/ethercatdc.c:382-389 | A slave's own stamps span the time the frame spends below it |
| `DelayExactness.EarlierChildren` | 3rdparty/SOEM/soem/ethercatdc.c:392-399 | The parent's stamps up to the port before span the time spent in earlier children |
| `DelayExactness.DelayStep` | 3rdparty/SOEM/soem/ethercatdc.c:374-405 | If the parent's delay is its true arrival time, the three spans give that of the child |
| `DelayPass.MeasureIsExact` | 3rdparty/SOEM/soem/ethercatdc.c:277-409 | Measuring one slave keeps the delays of all slaves so far true and the open ports of all parents in step |
| `DelayPass.PassIsExact` | 3rdparty/SOEM/soem/ethercatdc.c:272-427 | The delay pass over any bus of slaves with clocks gives every slave its true delay if no clock wraps while the frame is behind its slave; and only then, provided that the first clock does not wrap or at most two links, the first with a delay, lead on from the first slave |
| `ConfigDc.Configure` | 3rdparty/SOEM/soem/ethercatdc.c:252-431 | If all slaves have clocks the loop leaves the list of the delay pass, apart from the chain; so on every bus of such slaves with symmetric links the delays are the true ones under the condition of PassIsExact, in both directions. On any list the slaves with clocks are chained in order, the group of the first one is told, and the result says whether there are any |
| `ConfigDc.GroupsAreTold` | 3rdparty/SOEM/soem/ethercatdc.c:279-286 | Of groups that had no clock before, each says that it has one exactly if it really has, if and only if all slaves with clocks are in the group of the first one; and the slave that a group is told is in it and the first of all with a clock |
| `ConfigDc.LineTakesPort` | 3rdparty/SOEM/soem/ethercatdc.c:410-428 | Passing a line of slaves without clocks that hangs on a split takes exactly one port of that split, the next open one, at the end of the line, and changes no slave outside the line |
| `ConfigDc.SplitTakesNone` | 3rdparty/SOEM/soem/ethercatdc.c:410-428 | A branch without clocks that splits again takes no port of the split it hangs on |
| `ConfigDc.InitialShows` | 3rdparty/SOEM/soem/ethercatconfig.c:396-470 | What the configuration pass leaves in the slave list is what the delay pass needs |
| `ConfigDc.FindDelays` | 3rdparty/SOEM/soem/ethercatdc.c:252-431 | Both passes together: from status words whose port bits show the active ports, and from latched times alone, every slave gets its true delay, exactly under the condition of Configure |
| `WrappedClocks.WrapGivesTooMuch` | 3rdparty/SOEM/soem/ethercatdc.c:337-405 | A slave behind the first one whose clock wraps while the frame is behind it gets a delay above the true one, if the delay of its parent is true |
| `WrappedFirst.OnlyChild` | 3rdparty/SOEM/soem/ethercatdc.c:337-405 | A wrap of the first slave with a single link gives the slave on that link a negative delay |
| `WrappedFirst.FirstOfTwo` | 3rdparty/SOEM/soem/ethercatdc.c:337-405 | If the first slave has two links and wraps with its first link as entry port, the first child is measured at the second link, and its delay is true only if the second link with all behind it takes no longer than the first |
| `WrappedFirst.SecondOfTwo` | 3rdparty/SOEM/soem/ethercatdc.c:337-405 | The second child of such a slave is measured at port 0, and its delay is never true if the first child has its true delay |
| `WrapExamples.WrapMayGoUnnoticed` | 3rdparty/SOEM/soem/ethercatdc.c:337-405 | The pass over a concrete bus of six slaves whose first slave has three links and wraps: the ports are mixed up and yet all delays come out true |
| `WrapExamples.NoDelayGoesUnnoticed` | 3rdparty/SOEM/soem/ethercatdc.c:337-405 | The pass over a concrete bus whose first slave wraps and has a single link that takes no time: all delays come out true |
| `WrapExamples.WrapBreaksDelay` | 3rdparty/SOEM/soem/ethercatdc.c:337-405 | The pass over a concrete bus where the clock of the first slave wraps: the delay of the second comes out as -5 instead of 5 |
| `FmmuMapping.Pass` | 3rdparty/SOEM/soem/ethercatconfig.c:922-957 | A pass never goes back and never counts down; if it does not move on to a later sync manager it has counted enough to finish, so the loops end |
| `FmmuMapping.FmmusPartition` | 3rdparty/SOEM/soem/ethercatconfig.c:958-1010 | The FMMUs of one slave and direction follow one another in the image without gap or overlap, from the start of its interval to the end |
| `FmmuMapping.FilledWhenCovered` | 3rdparty/SOEM/soem/ethercatconfig.c:915-1010 | If the matching sync managers before the last index have enough bytes, the FMMUs of the area map as many bytes as it has |
| `FmmuMapping.Width` | 3rdparty/SOEM/soem/ethercatconfig.c:958-1010 | The interval has exactly the bits of a slave with seven or fewer; otherwise it is whole bytes, and exactly the slave's bytes if the sync managers cover them |
| `FmmuMapping.LengthsAreRightIff` | 3rdparty/SOEM/soem/ethercatconfig.c:915-1010 | The byte count is not reset between passes: all FMMUs of an area are as long as the sync managers of their own pass, or what remains of the area, if and only if the first pass that finds bytes, or the next one, finishes the area or comes to the last sync manager |
| `FmmuMapping.ScatteredIsWrong` | 3rdparty/SOEM/soem/ethercatconfig.c:1054-1111 | Three separate sync managers of four bytes: the second FMMU gets eight bytes and the third sync manager none |
| `FmmuWindows.FmmusMade` | 3rdparty/SOEM/soem/ethercatconfig.c:997-1131 | Every FMMU for outputs has type 2 and is active; every FMMU for inputs has type 1 and is active exactly if it covers a bit; each begins at a sync manager of the kind of its direction, or the last one of all |
| `FmmuWindows.FmmusMap` | 3rdparty/SOEM/soem/ethercatconfig.c:1124-1131 | The active FMMUs of a slave for one direction map, in the type of this direction, exactly the bits of its interval, and in the other type none |
| `FmmuMemory.FmmusMapMemory` | 3rdparty/SOEM/soem/ethercatconfig.c:1056-1084 | If the sync managers of the right kind lie in ascending order and two passes are enough, every FMMU of a byte-oriented slave maps memory of these sync managers only |
| `FmmuMemory.DescendingIsMerged` | 3rdparty/SOEM/soem/ethercatconfig.c:1074-1078 | Two sync managers in descending order are taken for neighbours: one FMMU maps both lengths from the first one on, and with that memory that belongs to none |
| `ProcessImage.TakePass` | 3rdparty/SOEM/soem/ethercatconfig.c:1056-1084 | The inner loops select exactly the sync managers of one pass and their byte count |
| `ProcessImage.MapBits` | 3rdparty/SOEM/soem/ethercatconfig.c:1087-1105 | A bit-oriented slave gets its bits at the cursor, which moves on by them |
| `ProcessImage.FindFreeFmmu` | 3rdparty/SOEM/soem/ethercatconfig.c:914-922 | Inputs of a slave with outputs use the first FMMU entry from FMMUunused on whose logical start is 0; all others use FMMUunused itself |
| `ProcessImage.CreateMapping` | 3rdparty/SOEM/soem/ethercatconfig.c:896-1152 | Mapping one slave and direction writes exactly the FMMUs of its area from the first free entry on, sets where its data lie unless that is set already, moves the cursor to the end of its interval, and counts one increment per programmed FMMU |
| `Segments.AddToSegment` | 3rdparty/SOEM/soem/ethercatconfig.c:1206-1219 | Adding a block closes the open segment if the limit would be passed, as long as the table has room |
| `Segments.CutConserves` | 3rdparty/SOEM/soem/ethercatconfig.c:1206-1247 | Cutting any list of blocks conserves their sum |
| `Segments.SegmentsFitIff` | 3rdparty/SOEM/soem/ethercatconfig.c:1206-1247 | All segments fit a datagram exactly if all blocks do |
| `Segments.BlockInOneSegment` | 3rdparty/SOEM/soem/ethercatconfig.c:1206-1247 | Every block lies within one segment |
| `Segments.CutIsSmallest` | 3rdparty/SOEM/soem/ethercatconfig.c:1206-1219 | No other way to cut the image that leaves all blocks whole and makes segments of at most 1466 bytes has fewer segments, or with as many a smaller last one |
| `Segments.CutIsCutting` | 3rdparty/SOEM/soem/ethercatconfig.c:1206-1219 | The cut is such a way |
| `Segments.CappedConservesIff` | 3rdparty/SOEM/soem/ethercatconfig.c:1214-1219 | The recorded segments sum to the image exactly if 64 of them are enough |
| `Segments.SixtyFifthIsLost` | 3rdparty/SOEM/soem/ethercatconfig.c:1206-1219 | 64 blocks of 1466 bytes and one more of any size: the recorded segments are the 64 blocks |
| `ImageLayout.IntervalsAreOrdered` | 3rdparty/SOEM/soem/ethercatconfig.c:1190-1300 | The bit intervals of all slaves in one direction are ordered like the slaves, disjoint, and inside the image |
| `ImageLayout.IntervalIsExact` | 3rdparty/SOEM/soem/ethercatconfig.c:1190-1300 | The FMMUs of a slave partition its interval, and the interval has exactly its size |
| `ImageLayout.AllBlocksSum` | 3rdparty/SOEM/soem/ethercatconfig.c:1190-1300 | The blocks handed to the segmenter sum to the bytes of the direction |
| `MapGroup.FindMappings` | 3rdparty/SOEM/soem/ethercatconfig.c:793-800 | Byte counts are set for slaves with more than seven bits |
| `MapGroup.BytesAreFound` | 3rdparty/SOEM/soem/ethercatconfig.c:793-800 | A slave of eight bits and more gets the least number of bytes that holds them, and one with fewer keeps a count of zero |
| `MapGroup.BlockedIff` | 3rdparty/SOEM/soem/ethercatconfig.c:1294-1297 | The use of LRW is blocked for a group exactly if some slave of it blocks it |
| `MapGroup.MapSlave` | 3rdparty/SOEM/soem/ethercatconfig.c:1196-1222 | One slave is mapped where the layout says, and its block goes to the segments |
| `MapGroup.MapDirection` | 3rdparty/SOEM/soem/ethercatconfig.c:1192-1249 | One direction of all slaves: list, cursor, counters and segments are those of the layout |
| `MapGroup.MapGroup` | 3rdparty/SOEM/soem/ethercatconfig.c:1172-1340 | The whole mapping: the slave list, the group record (where outputs and inputs are, sizes, segments, where inputs begin, working counters) and the returned size are those of the layout, and the size is Obytes plus Ibytes |
| `ImageProperties.OutputsBeforeInputs` | 3rdparty/SOEM/soem/ethercatconfig.c:1224-1300 | All output intervals lie before all input intervals, which begin at a whole byte |
| `ImageProperties.ImageSize` | 3rdparty/SOEM/soem/ethercatconfig.c:1225-1340 | The blocks of outputs and of the whole image sum to their sizes |
| `ImageProperties.ByteSlaveInOneSegment` | 3rdparty/SOEM/soem/ethercatconfig.c:1206-1321 | No byte-oriented slave is cut in two by a segment boundary |
| `ImageProperties.SegmentsOfGroup` | 3rdparty/SOEM/soem/ethercatconfig.c:1243-1321 | The segments in the group record sum to Obytes plus Ibytes; those before Isegment together with Ioffset are exactly the outputs; they fit a datagram exactly if all blocks do |
| `OverlapImage.SlotHoldsSlave` | 3rdparty/SOEM/soem/ethercatconfig.c:1377-1440 | Overlapped, both directions of a slave lie in one slot, and slots of different slaves do not overlap |
| `OverlapImage.SlotInOneSegment` | 3rdparty/SOEM/soem/ethercatconfig.c:1396-1443 | Overlapped, no slave at all is cut in two by a segment boundary |
| `OverlapImage.OverlapMapGroup` | 3rdparty/SOEM/soem/ethercatconfig.c:1350-1475 | The whole overlapped mapping: slave list with all input addresses moved by Obytes, the unset ones as well, group record, and returned size |
| `OverlapImage.UnsetStaysIff` | 3rdparty/SOEM/soem/ethercatconfig.c:1458-1462 | The input address of a slave without inputs, if unset, stays unset exactly if the group has no outputs |
| `MappingExamples.UnsetInputsAreMoved` | 3rdparty/SOEM/soem/ethercatconfig.c:1458-1462 | One slave with a byte of outputs and no inputs: its input address is unset before and set afterwards |
| `OverlapImage.SegmentsOfOverlap` | 3rdparty/SOEM/soem/ethercatconfig.c:1396-1453 | The segments of an overlapped image sum to the larger of Obytes and Ibytes |
| `Wire.TakenOnce` | 3rdparty/SOEM/soem/ethercatmain.c:1687-1696 | Datagrams that tile an address range hand a window of bits that lies within one of them to its slave exactly once |
| `Wire.MetOnceIff` | 3rdparty/SOEM/soem/ethercatmain.c:1687-1696 | A window among datagrams that tile an address range is met at least once, and only once exactly if it lies within one of them |
| `Wire.ExpectedCounter` | 3rdparty/SOEM/soem/ethercatmain.c:1687-1696 | The counters of all datagrams together are two per slave with outputs plus one per slave with inputs for LRW, and one per window for LRD or LWR, if each window is met once |
| `ProcessData.Master.PushIndex` | 3rdparty/SOEM/soem/ethercatmain.c:1645-1654 | An entry is stored while there is room, and nothing changes otherwise |
| `ProcessData.Master.PullIndex` | 3rdparty/SOEM/soem/ethercatmain.c:1660-1670 | Entries come back in the order they were pushed, then -1 |
| `ProcessData.Master.Transmit` | 3rdparty/SOEM/soem/ethercatmain.c:1757-1773 | A frame for one segment goes out; the first one of a cycle with a clock has a second datagram, a read of one slave and write of all others, with the station address of the clock slave in the lower word of its address, 0x0910 in the upper one, and the eight bytes of the time known so far; every other frame has none. The place for the reply is remembered: in an overlapped image with LRW that is Obytes further on; where counter and clock will be in the reply is remembered as well |
| `ProcessData.ClockAnswers` | 3rdparty/SOEM/soem/ethercatmain.c:1765-1767 | On a bus where only the slave with the station address in a datagram answers, and only at register 0x0910, the clock datagram brings back the time of the slave it was made for |
| `ProcessFrames.LayOut` | 3rdparty/SOEM/soem/ethercatmain.c:1757-1768 | The bytes laid out for a frame are its datagrams in order with length, marks, addresses and zero counters, and the offset returned for the clock is the one that the exchange remembers |
| `ProcessFrames.ClockIsDistributed` | 3rdparty/SOEM/soem/ethercatmain.c:1757-1768 | A receiver that walks the bytes of the first frame of a cycle with a clock finds the process data with their command code, logical address and bytes, and then command 14 to the station address of the clock slave at 0x0910 with the time as data; in any other frame only the former |
| `ProcessFrames.FramesAreSendable` | 3rdparty/SOEM/soem/ethercatmain.c:1757-1768 | Every frame of a cycle that carries no more than the largest segment can be laid out, in at most 1514 bytes, with the clock datagram or without |
| `ProcessFrames.AnswerIsRead` | 3rdparty/SOEM/soem/ethercatmain.c:1928-1960 | If the bus writes data and counters of its answer in place, what is read at the fixed places of the frame that comes back (command, data, counter behind DCl bytes, clock at DCtO, last counter) is the answer |
| `ProcessFrames.NextIsMisread` | 3rdparty/SOEM/soem/ethercatmain.c:1934-1942 | Read at the places of a lost first frame, the next frame gives its counter if both are of the same length, and two bytes of process data if it is longer |
| `ProcessData.Master.SendInputs` | 3rdparty/SOEM/soem/ethercatmain.c:1735-1778 | The LRD datagrams start at the address behind Obytes bytes and carry one segment each, the first one without Ioffset bytes, until exactly Ibytes have been asked for or there are no more segments |
| `ExchangeRefinement.InputsAreDone` | 3rdparty/SOEM/soem/ethercatmain.c:1735-1778 | In an image that is not overlapped these are exactly the input parts of the segments |
| `ProcessData.Master.SendOutputs` | 3rdparty/SOEM/soem/ethercatmain.c:1780-1816 | The LWR datagrams carry exactly the output part of the segments, with the outputs of the IOmap |
| `ProcessData.Master.SendImage` | 3rdparty/SOEM/soem/ethercatmain.c:1819-1861 | The LRW datagrams carry exactly the whole logical image, overlapped or not |
| `ProcessData.Master.TakeFrame` | 3rdparty/SOEM/soem/ethercatmain.c:1928-1969 | One reply: its data go to the remembered place, its counter is added (twice for LWR), also when a clock datagram follows it in the frame; a frame that has not come back changes nothing |
| `ProcessData.Master.Receive` | 3rdparty/SOEM/soem/ethercatmain.c:1910-1985 | All replies that have come back are taken in once and in order, whichever frames are lost; without any the result is EC_NOFRAME |
| `ExchangeRefinement.SendProcessData` | 3rdparty/SOEM/soem/ethercatmain.c:1697-1865 | One call sends a complete transfer of the image, as LRW or as LRD and LWR |
| `LostFrames.ArrivedAtMost` | 3rdparty/SOEM/soem/ethercatmain.c:1924-1971 | The counters that come back never exceed those of a cycle without losses, and reach them exactly if no slave has counted a lost datagram |
| `LostFrames.InputIsComplete` | 3rdparty/SOEM/soem/ethercatmain.c:1924-1971 | If no slave has counted a lost datagram, every byte with an input bit is as it would be without losses |
| `ExchangeRefinement.Exchange` | 3rdparty/SOEM/soem/ethercatmain.c:1697-1985 | One cycle, in both modes and with or without the clock datagram, whichever frames are lost: the counter never exceeds 2 per slave with outputs plus 1 per slave with inputs, and reaches this exactly if no slave has counted a lost frame; then each slave has taken the bits of its outputs exactly once from a frame that has come back, the bits of each input are in their place, and nothing outside the input part of the IOmap has changed; for an empty image it is EC_NOFRAME |
| `ExchangeRefinement.RefinesWholeExchange` | 3rdparty/SOEM/soem/ethercatmain.c:1684-1697 | Without losses, the IOmap ends up as after one single LRW exchange of the whole image, whatever the segments; with LRD exactly if every input bit is provided by a slave or was zero before |
| `ExchangeRefinement.WholeCounter` | 3rdparty/SOEM/soem/ethercatmain.c:1684-1697 | The single exchange has the same working counter |
| `MappedExchange.MapperGivesLayout` | 3rdparty/SOEM/soem/ethercatconfig.c:1172-1340 | The image that the mapper builds, for slaves of bits or of bytes, meets all that the exchange needs, if no segment ends within the data of a slave |
| `MappedExchange.TablesGiveWindows` | 3rdparty/SOEM/soem/ethercatconfig.c:1172-1340 | Bus slaves that take from a datagram the bits that their active FMMUs of type 2 map, and put in those that their active FMMUs of type 1 map, as the mapper leaves these in the slave list, have exactly the output and input windows of the layout |
| `SlavePointers.PointsAtWindow` | 3rdparty/SOEM/soem/ethercatconfig.c:1008-1028 | The pointer and start bit that the list gives for the data of a slave are, to the bit, where its window lies in the IOmap, exactly if the group is not group 0 or the image begins at logical address 0 |
| `SlavePointers.MasterSpans` | 3rdparty/SOEM/soem/ethercatconfig.c:1248-1332 | For group 0 at logical address 0, the range that the master's own record gives for a direction contains the data of every slave |
| `MappedExchange.BytesAreUncut` | 3rdparty/SOEM/soem/ethercatconfig.c:1206-1321 | If all slaves have whole bytes no segment ends within the data of a slave |
| `MappingExamples.CutInTwo` | 3rdparty/SOEM/soem/ethercatconfig.c:1206-1219 | A slave of four bits whose data begin in the last byte of the first segment and end in the second: its window is met twice |
| `MappedExchange.InputsFill` | 3rdparty/SOEM/soem/ethercatconfig.c:1255-1340 | In an image that the mapper has built for byte-oriented slaves every input byte is provided by a slave |
| `MappedExchange.ExpectedCounterIsRight` | src/main.cpp:668 | The counter that the application expects, twice outputsWKC plus inputsWKC as counted by the mapper, is never below that of an undisturbed cycle, and equal to it exactly if every slave has one programmed FMMU in each direction in which it has bytes |
| `MappingExamples.CounterNeverReached` | src/main.cpp:668 | One slave whose outputs lie in two sync managers with a gap: the expected counter is 4, that of an undisturbed cycle 2 |
| `MappedExchange.Cycle` | src/main.cpp:896-911 | One cycle with a group that the mapper has made, with slaves of bits or of bytes, with LRW or without: the counter is never above the expected one, and a cycle with the expected counter has exchanged all outputs and inputs to the bit, whichever frames are lost; without losses the counter is the expected one exactly if every slave has one FMMU per direction, and the image in memory is that of one single exchange of the whole image with LRW, and without exactly if every input bit is provided by a slave or was zero, as for slaves of whole bytes. The bus slaves follow the FMMU tables that the mapper has left |
| `OverlapExchange.Exchange` | 3rdparty/SOEM/soem/ethercatmain.c:1697-1985 | One cycle of an overlapped image: the counter never exceeds that of a cycle without losses, which is two per slave with outputs plus, with LRW, one per slave with inputs and, with LRD, one for each time an input window is met, and reaches it exactly if no slave has counted a lost frame; then all outputs are taken once, and with LRW all inputs are behind the outputs in the IOmap; without losses the whole of what comes back is there |
| `OverlapExchange.LrdDeliversIff` | 3rdparty/SOEM/soem/ethercatmain.c:1739-1778 | An overlapped image without LRW: the inputs are delivered, whatever they are, if and only if the group has no outputs or no slave has inputs, because reading starts Obytes too far |
| `MappedOverlap.MapperGivesLayout` | 3rdparty/SOEM/soem/ethercatconfig.c:1350-1475 | The image that the overlapping mapper builds, for slaves of bits or of bytes, meets all that the exchange needs |
| `MappedOverlap.TablesGiveWindows` | 3rdparty/SOEM/soem/ethercatconfig.c:1350-1475 | The same for the overlapped mapping: bus slaves that follow the programmed FMMUs have both windows at the beginning of their slot |
| `SlavePointers.PointsAtSlot` | 3rdparty/SOEM/soem/ethercatconfig.c:1454-1461 | The pointer for the outputs of a slave is the place of its slot, and that for its inputs the same place Obytes further on, under the same condition |
| `MappedOverlap.Cycle` | src/main.cpp:896-911 | One cycle with LRW and a group that the overlapping mapper has made: the counter is never above the expected one, and a cycle with the expected counter has delivered all outputs and inputs; the replies fill as many bytes behind the outputs as the larger direction has |
| `EoeSend.Sender.Send` | 3rdparty/SOEM/soem/ethercateoe.c:322-398 | Every frame below 65536 bytes is cut into fragments that fit the mailbox, carry its bytes in order, are multiples of 32 bytes except the last, each of these as large as fits, and only the last is marked; the call ends whenever a mailbox has room for 32 bytes or for the whole frame |
| `EoeSend.Info2` | 3rdparty/SOEM/soem/ethercateoe.h:79-91 | Fragment number, offset and frame number are read back from the header word, each cut to its width |
| `EoeReceive.Receive` | 3rdparty/SOEM/soem/ethercateoe.c:415-518 | The loop over the mailbox computes the reception as specified, including all refusals |
| `EoeReceive.FitsSixBits` | 3rdparty/SOEM/soem/ethercateoe.c:348-363 | For frames of up to 2016 bytes, fragment numbers and offsets of all fragments fit six bits, and non-last offsets are multiples of 32 |
| `EoeReceive.RoundTrip` | 3rdparty/SOEM/soem/ethercateoe.c:415-518 | A frame of up to 2016 bytes that is sent is received with the same bytes and length exactly if the buffer holds its length rounded up to 32 and the port number is below 16; otherwise it is refused and nothing is written |
| `EoeInbox.AnyInbox` | 3rdparty/SOEM/soem/ethercateoe.c:425-508 | Whatever the mailbox holds: a frame received into a buffer below 64 KiB is exactly what some of its messages carry, in order, with the same frame number and without a gap, less the four bytes of a time stamp |
| `EoeInbox.ConsecutiveIff` | 3rdparty/SOEM/soem/ethercateoe.c:425-480 | These messages are numbered consecutively from 0, as those that the reader of single fragments takes, exactly if none but the first has number 0 |
| `EoeInbox.StartTakenForNext` | 3rdparty/SOEM/soem/ethercateoe.c:439-480 | Two messages with number 0, the second one a frame of its own: received in one go they make 64 bytes, read one by one the second alone is delivered |
| `EoeReassembly.Reassembler.ReadFragment` | 3rdparty/SOEM/soem/ethercateoe.c:534-640 | One call changes the working variables, the buffer and the size as specified, for every state and message |
| `EoeReassembly.RunsHold` | 3rdparty/SOEM/soem/ethercateoe.c:534-640 | Over every run from the zero state, the buffer up to rxframeoffset holds the accepted fragments of one frame number, numbered from 0 and gapless, and rxframeoffset is at most rxframesize |
| `EoeReassembly.RunsDeliver` | 3rdparty/SOEM/soem/ethercateoe.c:618-633 | Whatever frame such a run delivers is what its fragments carry, less the last four bytes if a time stamp is appended |
| `EoeReassembly.KeptArrived` | 3rdparty/SOEM/soem/ethercateoe.c:534-640 | The fragments held all arrived in this run |
| `EoeReassembly.RunsWriteWithin` | 3rdparty/SOEM/soem/ethercateoe.c:608-615 | No run writes past the buffer size it is given |
| `EoeReassembly.DeliversFrame` | 3rdparty/SOEM/soem/ethercateoe.c:534-640 | From any state whatever, the fragments of one frame deliver exactly it and reset all counters, if and only if it has at most 2016 bytes and fits the buffer |
| `EoeReassembly.LongFrameIsRefused` | 3rdparty/SOEM/soem/ethercateoe.c:582-590 | Two messages with a frame of 2017 bytes, cut as the sender does it: a size of 0 is announced and the second message is refused |
| `SdoRead.Reader.Read` | 3rdparty/SOEM/soem/ethercatcoe.c:120-312 | Reading copies to the buffer exactly the data of the answers, returns their size and reports each refusal; it sends one request for each answer it needs, each with the bytes of index and subindex in order, command 0x40 or 0x50 first and then 0x60 with a toggle that alternates from 0 |
| `SdoUpload.SegmentsAreRead` | 3rdparty/SOEM/soem/ethercatcoe.c:203-260 | Segments cut in any legal way, with the seven-byte minimum and its count of unused bytes, are read as the rest of the object |
| `SdoUpload.UploadIsExact` | 3rdparty/SOEM/soem/ethercatcoe.c:120-312 | Whatever way a conforming slave transfers an object (expedited, at once, or in segments), exactly this object is read if and only if it fits the buffer; else the read fails and copies nothing |
| `SdoUpload.AbortEndsUpload` | 3rdparty/SOEM/soem/ethercatcoe.c:236-276 | If a slave answers with segments of an object and then, at any message, with command 0x80, the read ends as aborted |
| `SdoUpload.AbortAtFirst` | 3rdparty/SOEM/soem/ethercatcoe.c:172-306 | A first answer with command 0x80 ends the read as aborted, unless it is a response with the index asked for: then it is read as a transfer, with the abort code for its size |
| `SdoUpload.StaysInsideIff` | 3rdparty/SOEM/soem/ethercatcoe.c:193-257 | Whatever the slave sends: what is read stays within the caller's buffer if and only if it is not a transfer in segments, or the bytes of the first message and of all accepted segments together fit the buffer |
| `SdoUpload.ServedStaysInside` | 3rdparty/SOEM/soem/ethercatcoe.c:193-257 | The read of an object that a slave serves by the protocol always stays within the buffer |
| `SdoUpload.LongerThanAnnounced` | 3rdparty/SOEM/soem/ethercatcoe.c:203-257 | Two messages that announce eight bytes and bring a hundred: the read into eight bytes succeeds with a hundred |
| `SdoWrite.MakeExpedited` | 3rdparty/SOEM/soem/ethercatcoe.c:347-364 | Up to four bytes in one request: command 0x23 plus four times the number of unused bytes, the bytes of index and subindex, and the data |
| `SdoWrite.MakeInit` | 3rdparty/SOEM/soem/ethercatcoe.c:400-437 | The initial message: a request with command 0x21 or 0x31, the bytes of index, adjusted subindex and size in order, and the first bytes of the object |
| `SdoWrite.MakeSegment` | 3rdparty/SOEM/soem/ethercatcoe.c:456-492 | A segment: toggle, last mark, and for less than seven bytes the minimum length with the unused count |
| `SdoWire.SegmentIsRead` | 3rdparty/SOEM/soem/ethercatcoe.c:239-263 | A segment coded by the rules of the protocol (toggle in bit 4, unused bytes in bits 1 to 3, last mark in bit 0, at least seven bytes) is read with its toggle, mark and data |
| `SdoWrite.InitAcceptedIs` | 3rdparty/SOEM/soem/ethercatcoe.c:445-448 | The answer to the initial message is accepted exactly if it is a CANopen response with the bytes of index and subindex, whatever its command |
| `SdoWrite.SegmentAcceptedIs` | 3rdparty/SOEM/soem/ethercatcoe.c:497-499 | The answer to a segment is accepted exactly if it is a CANopen response with a command from 0x20 to 0x3f |
| `SdoWrite.AbortEnds` | 3rdparty/SOEM/soem/ethercatcoe.c:503-515 | An answer with command 0x80 to any segment that was sent is the last one and the outcome is that of an abort; so is one to the initial message, exactly if it is not a response for the object |
| `SdoWrite.Writer.WriteSegments` | 3rdparty/SOEM/soem/ethercatcoe.c:450-519 | Segments follow, also past one that is not answered, until as many bytes are sent as the size cut to 16 bits, or until one is refused; toggles alternate, only the last one is marked, and all others fill the mailbox |
| `SdoWrite.Writer.Write` | 3rdparty/SOEM/soem/ethercatcoe.c:330-540 | No message exceeds the mailbox, and all but the last fill it. With a slave that confirms the initial message with 0x60 and segment k with 0x20 plus 16 times its toggle, the write succeeds, and reading the messages back by the master's own rules yields the first bytes of the object, as many as its size modulo 65536, which is the object exactly if it has at most 65535 bytes and, without complete access, at least one. Command 0x80 in place of any confirmation ends the transfer there as aborted, except for a first answer that is a response for the object |
| `SdoWrite.NothingOf65536` | 3rdparty/SOEM/soem/ethercatcoe.c:400-437 | Of an object of 65536 bytes nothing is written, under an announced size of 65536 |
| `SdoWrite.DownloadIsRead` | 3rdparty/SOEM/soem/ethercatcoe.c:177-286 | The messages of a completed download are read as what has been written, which is the object exactly if all of it was |
| `SdoWrite.ExpeditedIsRead` | 3rdparty/SOEM/soem/ethercatcoe.c:177-198 | An expedited message is read back unchanged, except that no data at all are read as four zero bytes |
| `Foe.Write` | 3rdparty/SOEM/soem/ethercatfoe.c:199-350 | What is sent, and the outcome, are those of the first answer that is not the acknowledgement expected: always a prefix of the packets of the file, all of them if all are acknowledged and the file is not empty |
| `Foe.OutcomeTells` | 3rdparty/SOEM/soem/ethercatfoe.c:238-347 | Each outcome of a write, in both directions: file not found for error 0x8001, an error for any other, no answer, a wrong packet number, an unexpected message, and success for the last acknowledgement or BUSY |
| `Foe.LostIfBusy` | 3rdparty/SOEM/soem/ethercatfoe.c:300-318 | By the outcome that Write ensures, success with packets unsent happens exactly if the first answer that is no acknowledgement is BUSY and packets are left; the work is in Write |
| `Foe.BusyLosesBytes` | 3rdparty/SOEM/soem/ethercatfoe.c:300-318 | A slave that is busy after the first of two packets: the second is not sent and the writer reports success |
| `Foe.OnlyLastIsShort` | 3rdparty/SOEM/soem/ethercatfoe.c:259-276 | Packets are numbered from 1, all are full except a strictly shorter, possibly empty, last one |
| `Foe.Read` | 3rdparty/SOEM/soem/ethercatfoe.c:71-183 | Reading computes the specified result, stores the data in order and acknowledges every packet with its number |
| `Foe.AnyReading` | 3rdparty/SOEM/soem/ethercatfoe.c:108-160 | Whatever messages come: those taken are packets numbered from 1 without a gap, all full but the last one of a successful read, and the file is their data in order |
| `Foe.WhyReadingStops` | 3rdparty/SOEM/soem/ethercatfoe.c:114-178 | A read that is not successful ends, for each outcome in both directions, with no message, another one than a packet, a refusal, or a packet with the wrong number or without room |
| `Foe.RoundTrip` | 3rdparty/SOEM/soem/ethercatfoe.c:108-183 | The packets of a file, whatever follows them, are read as the file, and no more are taken, exactly if the buffer is large enough |
| `Foe.WrittenIsRead` | 3rdparty/SOEM/soem/ethercatfoe.c:71-350 | Whatever the slave answers, what has been written is read back as the file exactly if the file is not empty, the mailbox has room for data and all packets were sent; otherwise reading fails and has a prefix of the file |
| `Foe.WriteThenRead` | 3rdparty/SOEM/soem/ethercatfoe.c:71-350 | Writing followed by reading what was sent: reading succeeds exactly then, and the buffer holds the file |
| `FrameBuilder.Port.SetupDatagram` | 3rdparty/SOEM/soem/ethercatbase.c:68-92 | The first datagram of a frame, its length field, working counter and frame size |
| `FrameBuilder.Port.AddDatagram` | 3rdparty/SOEM/soem/ethercatbase.c:106-146 | One more datagram leaves all earlier ones and the Ethernet header in place, marks the first as followed, counts in the length field, and returns where its data will be in the received frame |
| `FrameBuilder.Port.PutData` | 3rdparty/SOEM/soem/ethercatbase.c:31-55 | Data of commands that only read are sent as zeros |
| `FrameBuilder.PayloadByCode` | 3rdparty/SOEM/soem/ethercatbase.c:31-55 | By command code: 0, 1, 4, 7 and 10 are sent with zeros, and 2, 3, 5, 6, 8, 9 and 11 to 14 carry their data |
| `FrameBuilder.WalkRecovers` | 3rdparty/SOEM/soem/ethercatbase.c:106-146 | Walking length and follows bit from any datagram recovers the rest of the chain exactly if all but the last are marked |
| `FrameBuilder.FrameParsesBack` | 3rdparty/SOEM/soem/ethercatbase.c:68-146 | A frame of one setup and any number of adds parses back to exactly the datagrams put in, if and only if more was set on all adds but the last |
| `FrameBuilder.BuildFrame` | 3rdparty/SOEM/soem/ethercatbase.c:68-146 | One setup and any number of adds on a buffer with room for them leave such a frame, and it parses back under that condition |
| `FrameBuilder.ThirdIsLost` | 3rdparty/SOEM/soem/ethercatbase.c:115-125 | Of three datagrams the third is not found if the second was added without more |
| `FrameBuilder.FirstFrameFits` | 3rdparty/SOEM/soem/ethercattype.h:50-56 | The largest segment together with the clock datagram makes a frame of exactly 1514 bytes |
| `ReadMulti.AllAnswered` | 3rdparty/SOEM/soem/ethercatmain.c:683-717 | In a frame whose datagrams are linked, every one is answered by the slave it names |
| `ReadMulti.Read` | 3rdparty/SOEM/soem/ethercatmain.c:683-717 | One frame asks up to 64 slaves and each status is found at its remembered position |
| `ReadState.Master.ReadState` | 3rdparty/SOEM/soem/ethercatmain.c:723-824 | If the broadcast decides, all slaves get its state and no slave is asked; else each slave is asked exactly once and gets what it reports, with the lowest state and all status codes in entry 0; also for an empty list |
| `ReadState.Master.ReadEach` | 3rdparty/SOEM/soem/ethercatmain.c:781-821 | Batches of at most 64 slaves ask every slave exactly once, in order |
| `ReadState.LowestIsLeast` | 3rdparty/SOEM/soem/ethercatmain.c:811-814 | The lowest state is the least of the low four bits of what the slaves report |
| `ReadState.WithinBroadcast` | 3rdparty/SOEM/soem/ethercatmain.c:735-743 | The status bits of every slave are contained in what the broadcast brings back |
| `ReadState.MissingIsSeen` | 3rdparty/SOEM/soem/ethercatmain.c:735-770 | A broadcast that some slave of the list has missed, or that met a slave with error bit 0x10, never decides |
| `ReadState.DifferenceIsSeen` | 3rdparty/SOEM/soem/ethercatmain.c:743-770 | If one slave is in SAFE_OP or OPERATIONAL and another one in a different state, the broadcast does not decide |
| `ReadState.AgreementDecides` | 3rdparty/SOEM/soem/ethercatmain.c:735-770 | If all slaves take part and are in the same one of the states 1, 2, 3, 4 and 8, the broadcast decides for this state |
| `ReadState.FastPathIsExact` | 3rdparty/SOEM/soem/ethercatmain.c:743-778 | With all slaves present, no error and legal states, the fast path records the same states and lowest state as asking each slave, if and only if the broadcast did not bring back BOOT or all slaves are in BOOT |
| `ReadState.InitAndPreOpLookLikeBoot` | 3rdparty/SOEM/soem/ethercatmain.c:743-778 | One slave in INIT and one in PRE_OP: the broadcast is BOOT and decides |
| `SiiCache.Cache.GetByte` | 3rdparty/SOEM/soem/ethercatmain.c:334-397 | Every marked byte of the cache equals the current slave's EEPROM byte before and after; the result is what a direct read gives, 0xff beyond the cache, and no mark of the same slave is lost |
| `SiiCache.Cache.Fetch` | 3rdparty/SOEM/soem/ethercatmain.c:359-391 | The answer of a 4-byte or 8-byte device is stored and exactly its bytes are marked |
| `SiiWalk.SiiFind` | 3rdparty/SOEM/soem/ethercatmain.c:405-437 | On a well-formed chain the search ends and returns the result of the specified search |
| `SiiWalk.FindIsFirst` | 3rdparty/SOEM/soem/ethercatmain.c:405-437 | That result is the length word's address of the first section of the category, or 0 if there is none |
| `SiiWalk.BeyondCache` | 3rdparty/SOEM/soem/ethercatmain.c:341-396 | Words from address 4096 on read as the end mark, all before as in the EEPROM |
| `SiiImage.SectionIsFound` | 3rdparty/SOEM/soem/ethercatmain.c:405-437 | In an EEPROM that holds any list of sections coded as category, number of words and data, with an end mark, the search gives the place of the first section of a category, or 0 |
| `SiiWalk.PdoInfo.ReadPdo` | 3rdparty/SOEM/soem/ethercatmain.c:638-668 | One PDO description is read completely, and address and word counter stay in step |
| `SiiWalk.PdoInfo.SiiPdo` | 3rdparty/SOEM/soem/ethercatmain.c:614-679 | All PDOs of a section (up to 511) are read as Describes says and reading ends exactly at the end of the section; what is read, in terms of PDO records, is ReadImage |
| `SiiImage.PdoIsRead` | 3rdparty/SOEM/soem/ethercatmain.c:640-661 | The bytes of a PDO with its entries are read as its index, sync manager, number of entries, and the sum of the bit lengths of its entries if a sync manager carries it |
| `SiiImage.ReadImage` | 3rdparty/SOEM/soem/ethercatmain.c:614-679 | For any EEPROM image made of sections, one of them with any list of PDO records: the function returns the sum of the bit lengths of the entries of all PDOs that one of eight sync managers carries, and the table holds index, sync manager and bits of each PDO and the bits of each sync manager, up to 511 PDOs; without such a section there is nothing |
| `SiiWalk.SizesAgree` | 3rdparty/SOEM/soem/ethercatmain.c:653-657 | The sizes of the sync managers add up to the size of the active PDOs |
| `SiiWalk.PdoEnds` | 3rdparty/SOEM/soem/ethercatmain.c:638-672 | The word counter reaches the section length exactly after the last PDO |
| `PdoMap.Slave.ReadPdoAssign` | 3rdparty/SOEM/soem/ethercatcoe.c:675-733 | The bits of all PDOs assigned to a sync manager |
| `PdoMap.Slave.ReadPdoAssignCA` | 3rdparty/SOEM/soem/ethercatcoe.c:740-780 | The same bits, read as whole objects |
| `PdoMap.AssignedAreCounted` | 3rdparty/SOEM/soem/ethercatcoe.c:696-728 | The bits counted for a sync manager are the lengths of all objects of the PDOs assigned to it, where index 0 is no PDO |
| `PdoMap.LengthsAreCounted` | 3rdparty/SOEM/soem/ethercatcoe.c:706-722 | For a PDO whose entries code objects by index, subindex and length, the bits counted are the lengths of its objects |
| `PdoMap.Slave.ReadPdoMap` | 3rdparty/SOEM/soem/ethercatcoe.c:810-895 | Sizes and sync managers as specified for single reads |
| `PdoMap.Slave.ReadPdoMapCA` | 3rdparty/SOEM/soem/ethercatcoe.c:910-989 | Sizes and sync managers as specified for complete access; with more than eight types the read of the types fails |
| `PdoMap.BothWaysAgree` | 3rdparty/SOEM/soem/ethercatcoe.c:810-989 | Both ways give the same sizes, types, lengths and enable flags if and only if sync managers 2 and 3, where present, have a type after the off-by-one correction |
| `PdoMap.UntypedOutputsAreLost` | 3rdparty/SOEM/soem/ethercatcoe.c:851-858 | A slave without a type for sync manager 2 and one PDO of eight bits: single reads find eight output bits, complete access none |
| `PdoMap.CorrectionKeepsTypes` | 3rdparty/SOEM/soem/ethercatcoe.c:838-846 | When the correction leaves a sync manager without a type, and that it turns types 2 and 3 into 3 and 4 |
| `MappedSizes.SizesAreSums` | 3rdparty/SOEM/soem/ethercatcoe.c:864-883 | The size of outputs is the sum of the bits assigned to all sync managers of type 3, that of inputs to those of type 4 |
| `MappedSizes.LengthIsTight` | 3rdparty/SOEM/soem/ethercatcoe.c:869-871 | A sync manager with process data gets its type and the least number of bytes that holds its bits |
| `MappedSizes.AllGetTypes` | 3rdparty/SOEM/soem/ethercatcoe.c:825-858 | Of the first eight sync managers that the dictionary knows, all from number 2 on get their type, also if it knows more |
| `MappedSizes.OnlyUnusedAreDisabled` | 3rdparty/SOEM/soem/ethercatcoe.c:859-863 | A sync manager is disabled exactly if it has no type, and the first two are left alone |
| `MappedSizes.DataAreCovered` | 3rdparty/SOEM/soem/ethercatcoe.c:810-895 | The sync managers then hold all the process data as the mapper of the image counts them, as long as these are not in the last of eight and are no more than 65535 bytes |
| `MappedSizes.UsualSlaveIsRead` | 3rdparty/SOEM/soem/ethercatcoe.c:838-858 | For a slave with outputs in sync manager 2 and inputs in 3, whose types are 1 2 3 4, or 0 1 2 3, or missing for the last two, single reads find the bits of both |
| `PublishedOffsets.RunningOffsets` | src/main.cpp:486-492 | The loop adds up the byte counts of all slaves before |
| `PublishedOffsets.CursorIsSum` | 3rdparty/SOEM/soem/ethercatconfig.c:1190-1300 | The bit cursor of the mapper is never behind eight times that sum, and just there exactly if no slave before has one to seven bits |
| `PublishedOffsets.OffsetsAgreeIff` | src/main.cpp:486-511 | For every slave with data in either direction, the published sum is never behind where the data begin, counted from the master's own record, and is just there, to the bit, if and only if no slave before has one to seven bits in that direction |
| `MappingExamples.PublishedTooLow` | src/main.cpp:486-492 | A slave of four bits and one of a byte: offset 0 is published for the second, whose data begin with bit 8 |
| `PublishedVariables.PdoAssign` | src/main.cpp:320-422 | The table holds exactly the described entries in order, and the bits are those of all entries |
| `PublishedVariables.ObjectIsPublished` | src/main.cpp:363-414 | The entry that codes an object is published with its index, subindex and whole bytes, exactly if it is not the filler and the dictionary describes it |
| `PublishedVariables.VariablesAreOrdered` | src/main.cpp:363-414 | The bytes of each variable end before those of any later one begin, with fillers and odd bit lengths as well |
| `PublishedVariables.BitsAreAssigned` | src/main.cpp:352-417 | The bits counted are the size that the mapper has found for the sync manager |
| `PublishedWindow.SlaveVars.MapSdo` | src/main.cpp:435-520 | Both tables of a slave hold the variables of their sync manager, from the offset of the slave in the direction of the type, behind what was published before in this direction |
| `PublishedWindow.VariablesInWindow` | src/main.cpp:486-511 | In a completely mapped list, every variable published for a slave of whole bytes whose sizes come from its dictionary, with no slave of one to seven bits before it in that direction, lies within the bytes that the mapper has given to this slave in that direction, counted from the master's own record |
| `CycleSemaphore.CreateSemaphores` | src/ecat_config_master.cpp:36-60 | All ten semaphores get the value 1, also those that existed with another; or setting up stops, without success, at the first one that cannot be opened or does not get it |
| `CycleSemaphore.NextInv` | src/ecat_config_master.cpp:188-197 | Every step of master or client, in any order, keeps the invariant |
| `CycleSemaphore.EveryRun` | src/ecat_config_master.cpp:188-197 | Over every run: each semaphore is 0 or 1, completed waits plus value are one plus posts, and completed waits never exceed cycles plus one |
| `CycleSemaphore.NoPileUp` | src/ecat_config_master.cpp:188-197 | In any stretch of a run a client gets through at most twice more than there are cycles in it |
| `CycleSemaphore.EveryCycleSignals` | src/ecat_config_master.cpp:188-197 | Once the master has come to a semaphore and gone on, it is 1 or a wait has completed meanwhile |
| `Registration.Client.Wait` | src/ecat_config_master.cpp:127-141 | One call finds or appends the calling thread, or refuses it |
| `Registration.SlotsAreOwn` | src/ecat_config_master.cpp:127-141 | Over any sequence of calls a thread always gets the same semaphore, two threads never the same, and a call is refused exactly if ten other threads came before |

## Left out

- Sockets, network buffers, timers, retries and timeouts: mailbox messages that are sent arrive, and whether a process-data frame comes back in time is a parameter.
- Error ring, mailbox counters and the clock synchronisation start: no state that another part depends on.
- ConfigDc.FindDelays: slaves without clocks between slaves with clocks, and entry ports other than 0, get no delay guarantee; the code for them is modelled, and the chain of clocks and, for lines of such slaves, the ports of the split (LineTakesPort) are proved.
- ConfigDc.Configure: a wrap of the first slave when it has three links, or a first link without delay, where a wrap may be seen or not (`WrapMayGoUnnoticed`, `NoDelayGoesUnnoticed`), gets no converse; the registers written to the slaves are not part of the model.
- ProcessImage.CreateMapping: more than 4 FMMUs for a slave, for which its table has no room; a precondition.
- FmmuMemory.FmmusMapMemory: slaves of seven bits and less, whose FMMU is not made of whole bytes; and sync managers that are not in ascending order or need more than two passes, for which it is false (DescendingIsMerged, FmmuMapping.ScatteredIsWrong).
- MappedExchange.TablesGiveWindows: FMMUs that were in use before the mapping, which would go on mapping what they did; a precondition. Slaves of other groups take no part.
- SlavePointers.PointsAtWindow: slaves whose sync managers do not cover their bytes, and pointers that were set before; preconditions.
- Segments.CappedConservesIff: blocks larger than a segment, which no datagram can carry; a precondition.
- MapGroup.MapGroup: at most 4 FMMUs per slave, as a precondition; the currents drawn from the bus and the reading of sync manager lengths before the mapping are not modelled.
- ImageProperties.SegmentsOfGroup: up to 64 segments, as a precondition; what happens beyond is CappedConservesIff.
- ProcessData.Master.Transmit: the frames of the exchange are records of datagrams; that their bytes are laid out and read back as these records is proved beside it (`ProcessFrames`). The system times of the slaves are a parameter.
- ProcessData.Master.Receive: with a clock datagram the first frame comes back, as a precondition; without it the code reads the next frame at the places of the first (`NextIsMisread`).
- ExchangeRefinement.Exchange: slaves with several windows per direction, windows that a segment cuts (`CutInTwo`), and more than 16 frames; what a slave has taken from a frame that is lost.
- MappedExchange.Cycle: images in which a segment ends within the data of a slave, for which the counter is above the expected one; more than 64 segments or 16 frames; and a lost first frame with a clock datagram. Preconditions.
- EoeSend.Sender.Send: frames above 65535 bytes, and mailboxes without room for 32 bytes when the frame is longer, where the loop makes no progress; preconditions.
- EoeInbox.AnyInbox: buffers of 64 KiB and more, on which the 16-bit offset wraps; a precondition.
- SdoRead.Reader.Read: the memory from the start of the buffer on must hold all that is copied, as a precondition; when this is more than the buffer is SdoUpload.StaysInsideIff. Messages shorter than the shortest SDO message, and sizes of 2^31 and more, are not modelled; a segment that does not come leaves the loop waiting, which the model reports as pending.
- Foe.Write: what a slave does after BUSY, and file names, passwords and the progress hook.
- SiiCache.Cache.GetByte: the last bytes of the cache, where an answer would not fit; a precondition.
- SiiWalk.SiiFind: chains that are not well formed, on which the search may not end because addresses wrap.
- SiiWalk.PdoInfo.SiiPdo: a section for the direction that is empty, which the code reads as if it had one PDO; a precondition.
- SiiImage.ReadImage: images that reach beyond address 4090, and PDOs of 65536 bits and more, whose sum wraps; preconditions.
- MappedSizes.DataAreCovered: process data in the last of eight sync managers, which the mapper does not look at, and more than 65535 bytes, on which the length wraps; preconditions.
- ReadState.Master.ReadState: the broadcast itself, whose result is a parameter, and the one frame that the code sends to an undefined address when there are no slaves.
- PublishedOffsets.OffsetsAgreeIff: slaves whose sync managers do not cover their bytes; and groups other than 0, which are not published.
- PdoMap.BothWaysAgree: dictionaries with more than eight sync managers, for which the read with complete access fails altogether.
- PublishedVariables.PdoAssign: more than 25 entries per sync manager, for which the table has no room; and reading names.
- Registration.SlotsAreOwn: calls from several threads at once, for which the list is not protected.
- IP parameters of EoE, SoE, object dictionary lists, texts, the error counters, shared memory set-up and the main loop: they would add easy members only.
