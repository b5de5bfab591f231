# Decoding PostgreSQL files, verified

A Dafny model of the algorithms by which pg_filedump and its two map analysers read PostgreSQL's
files: reassembling TOASTed values, decoding heap tuples, dates and numerics, GIN posting lists, the
free space map, the visibility map, and the string a COPY line is built in. One configuration is
modelled: PostgreSQL 14 or later, little-endian, 64-bit, 8192-byte blocks.

`dafny verify dfyconfig.toml` checks everything.

## How to read it

| file | part of the program |
|---|---|
| `Arithmetic.dfy`, `Bytes.dfy`, `Decimal.dfy` | quotients and products, little-endian integers, alignment, decimal text |
| `StringInfo.dfy` | stringinfo.c |
| `CopyLine.dfy` | the COPY line: CopyAppend, CopyAppendEncode |
| `Calendar.dfy` | j2date, timestamps |
| `Numeric.dfy` | CopyAppendNumeric, the macros of decode.h |
| `Tuple.dfy` | the decode callbacks, extract_data, the hand-over of ReadStringFromToast, FormatDecode |
| `Row.dfy`, `Damaged.dfy` | forming a tuple from values and decoding it back; tuples cut short or wrongly typed |
| `TextReader.dfy`, `Meaning.dfy` | reading printed values and rows back, without the printing code |
| `Toast.dfy` | ToastChunkDecode, the block and file scans, the rescans of ReadStringFromToast |
| `GinPosting.dfy` | posting lists |
| `RunLength.dfy` | the run-length compression of pg_fsm.c and pg_vm.c, four copies of one loop |
| `VisibilityMap.dfy` | pg_vm.c |
| `FsmTree.dfy`, `FsmDump.dfy`, `FsmDiff.dfy` | pg_fsm.c |

Code that updates state is a method over a class, an array or a loop, proved against a function; the
laws are lemmas about that function. Memory is bytes at addresses, so alignment is that of the address.
A file is a list of blocks of items, or of pages; printed output is a list of records or the bytes of
a line. Where C leaves the behaviour undefined (a read outside the tuple or of bytes never written, a
signed overflow) the outcome is a value of its own and nothing is claimed.

Facts of the code that shape the statements:

- `j2date` is right exactly for day numbers from -32044 on. Below, the unsigned sum wraps. PostgreSQL's
  own dates start at 0.
- A numeric's buffer of `i + dscale + DEC_DIGITS + 2` bytes is never filled: one byte always stays
  unused, and the exact case where only one does is stated.
- A tab is escaped like a carriage return, so strings with tabs do not survive; leading empty fields
  vanish from the line. Both are stated as exact conditions.
- A changed root or internal page also pushes its slots as records of heap pages. The conservation
  law is therefore about leaf pages; over all records it holds exactly when the bytes in the leaf halves
  of the root and internal pages add up to the same in both files.
- The "error page(s)" number of the visibility map counts runs of corrupt pages.
- A compressed value in the TOAST relation is printed as a string even in a numeric column: a number
  stored so is never printed as itself. Everything else is, and that is stated as an exact condition.
- A value that unpacks to another length than recorded leaves no field on the line at all.

## Model

| member | source | states |
|---|---|---|
| `StringInfos.StringInfo.constructor` | stringinfo.c:35-43 | an empty string of 1024 bytes, terminated, with nothing copied yet |
| `StringInfos.StringInfo.Reset` | stringinfo.c:51-57 | the content becomes empty and stays terminated; buffer and capacity remain |
| `StringInfos.StringInfo.Enlarge` | stringinfo.c:112-172 | refuses exactly the negative and the too large requests; otherwise keeps the content and leaves the capacity that the longest content so far calls for, the doubling loop ending and no int overflowing |
| `StringInfos.StringInfo.Append` | stringinfo.c:76-98 | on every run: content is the concatenation of what was appended, terminated; capacity a function of the longest content ever held; all reallocations together copied less than the final capacity |
| `StringInfos.CapacityForm` | stringinfo.c:113-172 | every capacity is 1024 times a power of two, or 2^30 - 1 |
| `StringInfos.CapacityIsLeast` | stringinfo.c:150-160 | the capacity suffices and is the least such |
| `StringInfos.GrowthIsHistoryFree` | stringinfo.c:145-160 | doubling on from any reached capacity gives the capacity a fresh string would get, and 2 * maxlen never passes the limit by more than one |
| `CopyLines.CopyAppend` | decode.c:271-288 | the line becomes the old one, a tab if it was not empty, and the text; leaves the program exactly when that reaches the size limit |
| `CopyLines.CopyAppendEncode` | decode.c:294-355 | the line is extended by the escaped field, built inside a buffer of twice the input plus one byte |
| `CopyLines.EscapedIsPlain` | decode.c:307-348 | an escaped field has no NUL, tab, CR or LF and is never the null marker |
| `CopyLines.UnescapeEscape` | decode.c:307-348 | unescaping an escaped field gives it back with every tab turned into CR |
| `CopyLines.EscapeLosesOnlyTabs` | decode.c:331-336 | a field survives escaping unchanged exactly when it holds no tab, although the comment above the function lists \t among the encoded symbols |
| `CopyLines.LineIsJoin` | decode.c:284-287 | the finished line is the tab-join of the fields with leading empty ones dropped, and splitting it gives those fields |
| `CopyLines.RowIsRead` | decode.c:271-355 | reading the line back gives the row exactly when it has a field, no field holds a tab and no empty string leads other fields |
| `Calendar.J2date` | decode.c:635-658 | for every int: the result is a valid date with day number jd exactly for jd >= -32044; from there on it is the proleptic Gregorian date reached by stepping one day at a time |
| `Calendar.J2dateIsTheCalendar` | decode.c:635-658 | the same of the unsigned arithmetic with its wrap-around: below -32044 the sum wraps and the result is never the date of jd |
| `Calendar.NextDayIsSuccessor` | decode.c:631-634 | the calendar: the day after a valid date is valid and has the next day number |
| `Calendar.DayNumberIsInjective` | decode.c:631-634 | a day number belongs to one valid date |
| `Calendar.SplitTimestamp` | decode.c:886-897 | the truncating division with its corrections is a floor division for all 64-bit timestamps, and the day fits an int |
| `Calendar.DecodeTimestamp` | decode.c:886-907 | the printed fields name a valid date and give the stored microseconds exactly for timestamps from the calendar's origin on |
| `Calendar.StampIsRecovered` | decode.c:886-907 | the same as a law of the printed fields, year 0 shown as 1 BC included |
| `Numeric.ShortHeaderRoundTrip` | decode.h:103-143 | sign, display scale and weight put into a short header are read back, and it is not special |
| `Numeric.LongHeaderRoundTrip` | decode.h:121-143 | the same for the long header with its 16-bit weight |
| `Numeric.TextDenotesNumber` | decode.c:436-505 | integer and fraction digits together are the stored magnitude shifted by weight and scale, cut towards zero |
| `Numeric.ShiftedIsScaled` | decode.c:436-505 | that shift is one multiplication or one floored division by a power of ten |
| `Numeric.TextReadsBack` | decode.c:411-510 | reading the printed text as a decimal numeral gives the sign, exactly dscale fraction digits and the stored number cut to them |
| `Numeric.LeadingZeroExactly` | decode.c:450-482 | the integer part is never empty, and has a superfluous leading zero exactly when the weight is positive and the first digit zero |
| `Numeric.PutGroup` | decode.c:455-482 | one stored digit, any 16-bit word, becomes its four decimal places, leading zeros left out unless something precedes, and nothing behind them is touched |
| `Numeric.WriteInteger` | decode.c:447-484 | the digits before the point are appended, zeros for digits beyond the stored ones, and nothing behind them is touched |
| `Numeric.WriteFraction` | decode.c:491-510 | whole groups are appended, overshooting by at most three characters, the first dscale of them are the fraction, and nothing behind the last is touched |
| `Numeric.FillBuffer` | decode.c:436-510 | whatever the allocated buffer held, a run leaves the text, the NUL and the overshoot at its start and every byte behind them as it was |
| `Numeric.BufferIsTight` | decode.c:436 | these are at most all but one byte of the i + dscale + DEC_DIGITS + 2 allocated, and exactly all but one for a negative number with dscale % 4 = 1 and a full first group or a negative weight |
| `Numeric.WriteNumeric` | decode.c:430-511 | every write stays inside the allocated buffer and the terminated string is the number's text, for any 16-bit digits |
| `Numeric.StoredNumberText` | decode.c:371-515 | each stored form, short or long header, prints the text of its sign, weight, scale and digits; without digits it prints 0 whatever the scale |
| `Tuples.CopyAppendNumeric` | decode.c:371-516 | on any bytes: special values by name, an unknown special returns -2 and prints nothing, digitless values print 0, others their text; an incomplete header is read past its end |
| `Tuples.DecodeDate` | decode.c:820-845 | infinities by name, other days through j2date; a day number overflowing an int is not defined |
| `Tuples.DecodeStamp` | decode.c:874-909 | infinities by name, other timestamps through the split and j2date, with +00 and BC suffixes |
| `Tuples.ParseValue` | decode.c:1036-1041 | the payload is handed to the string or the numeric printer, and the status and line are theirs |
| `Tuples.DecodeFixed` | decode.c:660-679 | alignment, the two size checks with their codes, the text, and the width plus padding as size used |
| `Tuples.ExtractData` | decode.c:1075-1163 | external pointers, followed or only marked as the option says, short headers and aligned headers are told apart by the first byte, each with its size check |
| `Tuples.ExtractLong` | decode.c:1142-1225 | the aligned plain and compressed forms; what cannot be unpacked to the recorded size is printed as corrupted; anything else returns -9 |
| `Tuples.DumpCompressedString` | decode.c:1295-1345 | unpacked bytes are printed as a string whatever the column; a refused method or a failing library returns its code; bytes of another length than recorded print nothing and still succeed |
| `Tuples.ReadStringFromToast` | decode.c:1347-1466 | a pointer into memory is marked; otherwise the file, the rescans, and the stored bytes handed to the printer or the unpacker, with -1 for a missing file or chunk |
| `Tuples.FormatDecode` | decode.c:1245-1293 | the loop over the columns ends as the left-to-right specification says: flushed line, bytes missing, a callback's code, or bytes left, with the partial line |
| `Rows.AttributeRoundTrip` | decode.c:660-1225 | any valid value in any storage form, in the row or through the TOAST file, at any address: its callback uses exactly its bytes and appends exactly its text, dates taken from the calendar |
| `Rows.FormIsExtracted` | decode.c:1075-1225 | short, long and compressed forms with their padding deliver the payload and the length used |
| `Rows.FollowedIsRightExactly` | decode.c:1444-1450 | a followed pointer prints its value exactly when it is not a number stored compressed, whatever is stored and wherever its chunks lie |
| `Rows.PackedNumberIsNeverRight` | decode.c:1444-1450 | such a number is printed as the escape of its raw bytes, which is never its text |
| `Rows.RowIsConsumed` | decode.c:1256-1284 | whatever types and bytes follow a formed row, its texts are on the line and decoding goes on right behind its last byte |
| `Rows.DecodeFormsBack` | decode.c:1245-1293 | forming then decoding: a row of values and nulls is decoded to the line of its texts in order with all bytes used; a final ~ swallows the rest |
| `Rows.ValueTextIsPlain` | decode.c:271-355 | no value's text holds a NUL, tab, CR or LF or is the null marker |
| `Rows.RowIsSplitBack` | decode.c:1245-1293 | the printed line splits into one text an attribute, nulls told from values, exactly when there is an attribute and the first of several is no empty string or name |
| `TextReaders.IntIsRead` | decode.c:679 | a printed integer, read as digits behind an optional minus, is the number |
| `Meanings.EpochIs2000` | decode.c:842-897 | day and timestamp 0 are 1 January 2000 |
| `Meanings.DayIsRead` | decode.c:829-845 | a printed date, read by an independent reader of year, month, day and BC, is the calendar date that many days after 1 January 2000, or its infinity |
| `Meanings.StampIsRead` | decode.c:874-909 | a printed timestamp, read the same way with hours below 24, minutes, seconds and six places, is that many microseconds after 1 January 2000 |
| `Meanings.NumberIsReadBack` | decode.c:371-515 | a printed numeric says its sign and its magnitude cut to its scale, or its special word |
| `Meanings.ValueIsReadBack` | decode.c:660-1225 | the printed text of every value, in whatever form it was stored, says the value |
| `Meanings.RowIsReadBack` | decode.c:1245-1293 | forming a row, decoding it and reading the line gives back its nulls and what its values say, attribute by attribute |
| `Rows.BitmapDescribesRow` | decode.c:1261-1265 | the null bitmap formed for a row tells att_isnull exactly its nulls |
| `Rows.StringRowSurvives` | decode.c:1245-1293 | strings and nulls stored, decoded and read from the COPY line come back exactly for the recoverable rows |
| `DamagedTuples.TooFewTypes` | decode.c:1285-1290 | a row with more attributes than types ends with the exact number of bytes left; only when all the others are null is the short line printed |
| `DamagedTuples.TooManyTypes` | decode.c:1267-1272 | a type behind the row's last byte ends with no more bytes left and the whole row on the line |
| `DamagedTuples.CallbackFails` | decode.c:1274-1280 | a negative code ends the decoding with the attribute's number from one on and the texts before it on the line |
| `DamagedTuples.CutFixedValue` | decode.c:660-733 | a fixed-width value cut in its padding gives -1, in its bytes -2, bool and name -1 |
| `DamagedTuples.CutForm` | decode.c:1109-1229 | a short value cut anywhere, and an aligned one cut behind its length words, gives -1, one cut before them -9 |
| `DamagedTuples.UnknownSpecial` | decode.c:382-403 | a special word that is neither NaN nor an infinity gives -2 |
| `DamagedTuples.InlineCompressed` | decode.c:1142-1225 | pglz is called for method 0 and LZ4 for method 1; restored bytes of the recorded length are parsed, and everything else is printed as corrupted |
| `DamagedTuples.FollowedCompressed` | decode.c:1295-1345 | the same methods for a followed value; another method gives -1, a library's error its code, and bytes of another length nothing |
| `DamagedTuples.LongLineLeaves` | decode.c:1245-1293 | the program leaves over the length of the line exactly when the tab-join of the texts reaches 2^30 - 1 bytes |
| `DamagedTuples.CutPointer` | decode.c:1081-1096 | a TOAST pointer cut anywhere behind its tag gives -1 |
| `Rows.PointerMeans` | decode.c:1377-1395 | the words of a pointer: stored size in 30 bits, method in two, compressed exactly when less is stored than the raw size without its header |
| `DamagedTuples.MissingChunk` | decode.c:1395-1440 | a pointer into a relation without a file, or without some chunk, gives -1 |
| `Toast.ChunkTupleHoldsChunk` | decode.c:1529-1613 | a chunk as the TOAST relation stores it is taken exactly when it is wanted, at every address and whatever lies behind it in the block |
| `Toast.OtherValueIsForeign` | decode.c:1570-1572 | a tuple of another value is ignored whatever follows its value id |
| `Toast.CutChunkIsIgnored` | decode.c:1529-1594 | a chunk cut before its payload is ignored |
| `Toast.LongChunkReadsOn` | decode.c:1494-1513 | a chunk that claims more bytes than its tuple has is copied from the block behind it and counted, without moving the reader on |
| `Toast.ChunksAreEnough` | decode.c:1385 | num_chunks is the stored size over 1996 rounded up, and for an empty value what the unsigned arithmetic gives |
| `Toast.ScansAreBounded` | decode.c:1412-1439 | on every file, whatever its tuples, unless a step leaves the block or the buffer: at most chunks + 2 scans, bytes read only ever appended and within the rawsize buffer, success only with all chunks counted, and giving up only after chunks + 2 |
| `Toast.ScanKeepsPrefix` | decode.c:1412-1439 | after any scan the bytes read are exactly chunks 0 to want - 1, and reach the external size exactly when want reaches the chunk count |
| `Toast.FileScanIsFlat` | pg_filedump.c:2471-2535 | leaving a block and leaving the file early amount to one pass over all items that stops when everything is read |
| `Toast.ReassemblesExactlyComplete` | decode.c:1412-1439 | with chunks in any order, repeated, among any tuples: no step leaves a tuple or the rawsize buffer, and success, with the value, exactly when every chunk is somewhere; at most as many scans as chunks, or giving up after chunks + 2 |
| `Toast.ScanCountIsExact` | decode.c:1412-1439 | with each chunk once: 1 plus the number of chunks that lie before their predecessor |
| `Toast.StoredIsFetched` | decode.c:1347-1450 | storing a value as chunk tuples, one after the other at any addresses, and fetching it gives it back after one scan |
| `Rows.StoredContentFits` | decode.c:1377-1450 | a relation holding just those tuples makes its pointer one of those the round trip covers |
| `Toast.ValueIsFetched` | decode.c:1347-1450 | what is handed over is the stored value exactly when every chunk is in the file, and an error otherwise |
| `Toast.ToastReader.ToastChunkDecode` | decode.c:1469-1613 | one tuple changes the wanted number and the buffer as specified, copying behind the bytes read, beyond the tuple where its length says so; false exactly when that leaves the block or the buffer |
| `Toast.ToastReader.FormatItemBlock` | pg_filedump.c:1515-1613 | the item loop is the specified scan of a block, left once everything is read |
| `Toast.ToastReader.DumpFileContents` | pg_filedump.c:2471-2535 | the block loop is the specified scan of the file, left once everything is read |
| `Toast.ReadChunks` | decode.c:1385-1440 | the rescans end with the specified result, buffer and number of loops, for every file |
| `GinPosting.PackRoundTrip` | pg_filedump.c:1072-1091 | an item is packed as block times 2^11 plus offset, in 43 bits, and unpacking gives it back |
| `GinPosting.PackPreservesOrder` | pg_filedump.c:1073-1083 | packing preserves the order of block and offset |
| `GinPosting.VarbyteRoundTrip` | pg_filedump.c:1096-1147 | a number of up to seven groups is read back from its code, whatever follows, with the code's length |
| `GinPosting.VarbyteIsPrefixFree` | pg_filedump.c:1096-1147 | no code begins another |
| `GinPosting.DecodeVarbyte` | pg_filedump.c:1096-1147 | the nested tests compute the number and the new position of the group-by-group reading, the seventh byte taken whole |
| `GinPosting.StoredDeterminesSegments` | pg_filedump.c:1149-1203 | different lists of segments are stored differently |
| `GinPosting.EnlargeIfFull` | pg_filedump.c:1170-1188 | there is room for one more item, the items so far kept, the size kept or doubled |
| `GinPosting.DecodeSegment` | pg_filedump.c:1175-1196 | the first item as stored and the others by adding deltas, all inside the growing array |
| `GinPosting.DecodeAllSegmentsItems` | pg_filedump.c:1149-1203 | stored segments of strictly increasing item pointers are decoded to exactly those items |
| `GinPosting.PrintSegment` | pg_filedump.c:1265-1292 | a list is printed item by item although its first field is overwritten, and only that field changes, to the last item |
| `GinPosting.PrintCompressedLeaf` | pg_filedump.c:1253-1297 | the printer yields the items the array decoder yields, in order, and the page differs only in each list's first item, which is its last |
| `RunLength.Compress` | pg_fsm.c:469-533 | the runs cover every position once, in order, with its value, and neighbours differ (also pg_vm.c:301-391, the same loop over statuses) |
| `RunLength.CompressionIsMinimal` | pg_fsm.c:466-495 | no other run list for the same values is shorter, and none with differing neighbours is another |
| `RunLength.RunsOfIsCompression` | pg_fsm.c:497-533 | the compression as a function has the same properties |
| `RunLength.FilterCommutes` | pg_fsm.c:752-786 | filtering runs and expanding equals filtering the expanded listing |
| `RunLength.SumOverRuns` | pg_fsm.c:1332-1343 | adding run by run, weighed by length, adds value by value |
| `VisibilityMap.PackedStatusIsFound` | pg_vm.c:251-278 | packed two-bit statuses are found again at every heap page, and out-of-file beyond |
| `VisibilityMap.DamagedStatus` | pg_vm.c:251-278 | a heap page is corrupt exactly when its map page is neither all zero nor valid, and on an all-zero page no bit is set |
| `VisibilityMap.PrintCompressed` | pg_vm.c:479-509 | exactly the runs the two filters leave |
| `VisibilityMap.PrintExpanded` | pg_vm.c:515-534 | exactly the heap pages the two filters leave |
| `VisibilityMap.ViewsAgree` | pg_vm.c:688-713 | the compressed view written out is the expanded view, for every filter |
| `VisibilityMap.DumpSummary` | pg_vm.c:647-682 | visible and frozen numbers count heap pages; the error number counts corrupt runs and equals the corrupt pages exactly when no two of them touch |
| `VisibilityMap.PrintDiffSummary` | pg_vm.c:777-824 | changed, gained and lost numbers are counts over the heap pages of the range |
| `VisibilityMap.DiffSummaryBalances` | pg_vm.c:801-824 | gained minus lost is new minus old for both bits, corrupt and out-of-file pages counting as neither |
| `VisibilityMap.DiffIsAntisymmetric` | pg_vm.c:801-824 | exchanging the files exchanges gained and lost |
| `VisibilityMap.SummaryCountsFlags` | pg_vm.c:422-436 | for a map written from recorded flags, the summary's numbers count the heap pages recorded as visible, and as frozen |
| `VisibilityMap.FiltersReadFlags` | pg_vm.c:479-534 | the two filters leave exactly the heap pages not recorded as visible, and as frozen |
| `VisibilityMap.DiffCountsFlags` | pg_vm.c:777-824 | changed, gained and lost count heap pages by what the two maps record of them |
| `FsmTree.SlotHoldsHeapPage` | pg_fsm.c:267-317 | the page and slot of a heap page: level 2, its number times L plus slot is the heap page, its parent the internal page starting its group |
| `FsmTree.SlotIsFoundBack` | pg_fsm.c:267-317 | every slot of every leaf page is the slot of its heap page |
| `FsmTree.NumberedInFileOrder` | pg_fsm.c:267-297 | a page's number is how many pages of its level lie before it in the file |
| `FsmTree.Groups` | pg_fsm.c:284-297 | internal pages lie L + 1 apart and the pages between are the leaf children of the first |
| `FsmTree.BuildFsmChildren` | pg_fsm.c:417-447 | each page's list is its children in file order |
| `FsmTree.KidsAreChained` | pg_fsm.c:417-447 | in a file of any length the children's subtrees follow one another and fill the parent's |
| `FsmDump.CatToBytesIsIncreasing` | pg_fsm.c:199-207 | a higher category means more bytes: 32 a step, and 8160 for the highest |
| `FsmDump.ComputeLeafAgg` | pg_fsm.c:535-556 | the highest category, the first slot that has it, and the sum of bytes |
| `FsmDump.Dump.UpdateLeafStats` | pg_fsm.c:951-974 | totals, histogram and file-wide maximum after one more leaf page |
| `FsmDump.PrintSlots` | pg_fsm.c:724-822 | exactly the ranges, or the slots, whose free space the min and max options let through |
| `FsmDump.ExpandingShowsTheSame` | pg_fsm.c:724-822 | written out, the ranges are the lines of the expanded view, whatever the free-space filter |
| `FsmDump.SlotsShowHeapPages` | pg_fsm.c:724-822 | in either view the slots printed are the heap pages that lead to the page, with their categories |
| `FsmDump.AvailRangeIsInclusive` | pg_fsm.c:572-586 | both free-space bounds are included: a category's own bytes as both show it alone |
| `FsmDump.BoundsWrapAround` | pg_fsm.c:572-586 | the bounds are cast to unsigned int: they wrap around 2^32, and a negative minimum hides every slot |
| `FsmDump.PageRangeSelects` | pg_fsm.c:558-570 | exactly the pages from the first to the last of the range are reported, both included, and with no range all |
| `FsmDump.Dump.DumpPage` | pg_fsm.c:1019-1070 | the counters of one page by level and header whatever the options, and its report: header line, node bytes, aggregate and slots as the options ask |
| `FsmDump.Dump.DumpNode` | pg_fsm.c:1009-1083 | the recursion meets the stretch of the file that is its subtree, in file order, and its statistics are those of the flat pass over it |
| `FsmDump.DoFsmDump` | pg_fsm.c:1203-1260 | from the root every page is met exactly once in file order, those in the page range are reported on, and the statistics do not depend on any display, page-range or free-space option |
| `FsmDump.SumLeafAvail` | pg_fsm.c:1698-1720 | the free space of the zero and valid leaf pages |
| `FsmDump.SummaryAddsUp` | pg_fsm.c:1179-1200 | one root, one page in L + 1 behind it internal, the others leaves; zero and invalid pages counted exactly; total slots L for each valid leaf page and equal to the histogram's total; free space equal to sum_leaf_avail |
| `FsmDump.SummaryFindsMax` | pg_fsm.c:968-973 | the reported maximum is the highest category of any valid leaf slot, at the first page and slot that have it |
| `FsmDump.HistogramIsExact` | pg_fsm.c:964-967 | every category's number is its slots on the valid leaf pages |
| `FsmDiff.Diff.PrintInternalDiff` | pg_fsm.c:1320-1370 | changed, gained and lost numbers grow by the positions of the inner nodes that do so |
| `FsmDiff.Diff.PrintLeafDiff` | pg_fsm.c:1374-1440 | the same for slots, and one record a changed range is pushed |
| `FsmDiff.Diff.ReportChangedPage` | pg_fsm.c:1520-1542 | header counts, inner nodes when shown, and slots of a changed page |
| `FsmDiff.Diff.DiffApplyStatus` | pg_fsm.c:1562-1586 | one page of both files adds what its status says |
| `FsmDiff.Diff.DiffPrintStatusLine` | pg_fsm.c:1544-1560 | a line exactly for pages in range, unchanged and empty ones only without --only-changed |
| `FsmDiff.Diff.DiffNode` | pg_fsm.c:1598-1662 | the recursion is the flat comparison of the stretch of the file that is its subtree |
| `FsmDiff.DoFsmDiff` | pg_fsm.c:1746-1815 | from the root: the flat comparison of all pages of the longer file, with both totals |
| `FsmDiff.PageDeltasAddUp` | pg_fsm.c:1391-1419 | run length times delta over a page's records is the difference of its free space |
| `FsmDiff.DiffConservesFreeSpace` | pg_fsm.c:1800-1801 | new total minus old total is the records of changed leaf pages plus added minus removed leaf pages |
| `FsmDiff.AllRecordsConserveExactly` | pg_fsm.c:1520-1542 | summed over all pages the records explain the change exactly when the leaf halves of the root and internal pages valid in both files add up to the same bytes in both |
| `FsmDiff.RootLeavesARecord` | pg_fsm.c:1540-1541 | a root page of any size, header and inner nodes whose first slot goes from 0 to 1 leaves a record of 32 bytes where no free space has changed |
| `FsmDiff.GainedPlusLostIsChanged` | pg_fsm.c:1409-1418 | gained plus lost is changed, and changed is the positions that differ over pages valid in both files |
| `FsmDiff.DiffIsAntisymmetric` | pg_fsm.c:1272-1299 | exchanging the files exchanges gained and lost, added and removed, and negates every record |
| `FsmDiff.SelfDiffIsEmpty` | pg_fsm.c:1272-1299 | a file does not differ from itself |
| `FsmDiff.PagesAreCounted` | pg_fsm.c:1272-1299 | added, removed and changed count the pages valid in one file or in both with different bytes, header counts those of the changed pages whose fields, or layout, differ |
| `FsmDiff.SlotsAreCounted` | pg_fsm.c:1333-1419 | gained counts the positions whose category is higher in the new file, lost those where it is lower |
| `FsmDiff.RecordsNameHeapPages` | pg_fsm.c:1391-1419 | a leaf page's records give every heap page that leads to it the change of its slot, and no other heap page any |
| `FsmDiff.LinesSelect` | pg_fsm.c:1544-1560 | a status line for exactly the pages in the range, without the equal and the empty ones under --only-changed |

## Left out

- Opening and seeking files, page headers and item flags: an item the scan passes over, for whatever reason, is one constructor.
- Decompression (pglz, and lz4, taken as compiled in): a parameter that returns bytes or an error code.
- The sharing of globals between the dump of a relation and the scan of its TOAST file: the scan has its own.
- Wrap-around of the wanted chunk number after 2^32 chunks without data in one scan.
- time, timetz, float, uuid and macaddr columns: fixed-width printers that would add only easy cases, and float formatting.
- Parsing the list of column types, its table of callbacks, and the command line.
- fsm_header_status and fill_fsm_page_info: a single decision each; their result (nodes kept of valid pages only) is the predicate on loaded pages.
- Line layout of the two analysers; which pages or runs are printed is modelled, the columns are not.
- ginReadTupleItems and the uncompressed GIN leaf: copies of arrays.
- The capacity doubling of the analysers' vectors, modelled as sequences.
- The `double` totals of pg_fsm.c are integers here; every summand is a whole number of bytes.
- The wrap-around of 64-bit sums of GIN deltas: stored lists are taken as well formed.
- Tuples.FormatDecode: says nothing where C is undefined, such as a header length below its own size.
