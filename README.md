# ZMC, the Z80 Management Commander, as a Dafny model

ZMC is a two-panel file manager for CP/M on the Z80. Each panel lists the
files of one drive. One panel has the focus. Keys move the cursor, mark
files, change the drive, copy the file under the cursor to the other panel's
drive, or delete it. This project models the core of the program in Dafny
and proves what that code does:

- the directory loaders of `operations.c` and `operaciones.c`: the
  directory search answers, the display name `NAME.EXT`, the size, the
  extent merging of the sort comparator, the compaction of the array, and
  the CP/M 3 date stamp (days since 1 January 1978) turned into a date;
- the File Control Blocks (FCBs) filled from a display name, and the BDOS
  calls made by delete and copy: delete the target, open, make, the record
  loop, close;
- the batch copy and delete over the marked entries;
- the panel drawing of `panel.c`: the scroll adjustment, the 28 visible
  rows, and the one-line redraw;
- the key loop of `main.c`, the VT100 function-key decoder of `vt100.c`,
  and the key test program `keytest.c`.

How the model is built:

- The BDOS is the class `Cpm.Bdos`. It records every call it receives, in
  order, and answers from a script. An empty script answers 255, the BDOS
  error code.
- A directory search is the list of answers it gives (`SearchHit`: the
  slot, the 32-byte record, and the sector's date-time record). In the key
  loop the searches come from a queue of listings. Once the queue is empty,
  a search finds nothing.
- The keyboard is the sequence of bytes the console returns.
- A drawing is the list of rows written.
- Objects whose fields the C code updates are classes: the panels, the
  application state, the two global FCBs, and the BDOS. Arrays that the
  C code fills in place stay arrays. The rest is datatypes and functions.

Modules, one per file:

- `Common`: bytes and C strings.
- `Directory`: records and display names.
- `Fcb`: the File Control Block.
- `Calendar`: `days_to_date`.
- `Catalog`: the entries of `operations.c`, its comparator and compaction.
- `Cpm`: the BDOS and the copy protocol.
- `Operations`: `operations.c`.
- `Zmc`: the types of `zmc.h`.
- `Operaciones`: `operaciones.c`.
- `PanelView`: `panel.c`.
- `Vt100`: `vt100.c`.
- `Commander`: `main.c`.
- `KeyTest`: `keytest.c`.

Where the program's documentation and its code disagree, the model follows
the code. The two exceptions are the defects listed under Findings: the
copies of `operations.c` fill their destination FCB with the corrected
`prepare_fcb`, and the key loop takes the corrected PgDn step. Each member
this affects is named under Left out. The other disagreements:

- `load_directory` of `operaciones.c` never resets the `seleccionado`
  flags. A reload keeps the mark of every slot, whichever file the slot now
  holds (`Operaciones.ReloadKeepsMarks`).
- The batch delete does not reload the panel.
- The batch functions `ejecutar_copia_multiple` and
  `ejecutar_borrado_multiple` are modelled, but `main.c` never calls them.
  F5 and F8 act on the file under the cursor only.
- `main.c` reads F5 as `ESC [ 1 6 ~`. The `vt100.c` decoder reads F5 as
  `ESC [ 1 5 ~` (`Commander.CopyCodesDisagree`).
- A copy between two panels on the same drive first deletes its source
  (`Cpm.SameBlockCopyDeletesSource`).

The table below names, for every member with a contract, the source lines it
models.

## Model

| member | source | states |
|---|---|---|
| `Common.Strip7` | operations.c:178 | `b & 0x7F` is below 128, leaves a 7-bit byte alone and differs from `b` only by bit 7 |
| `Common.StripAll` | operations.c:178-181 | the cleaned name and type fields: same length, every byte with bit 7 cleared |
| `Common.CStr` | operaciones.c:73-78 | the string held in a NUL-terminated buffer is a prefix without NUL, ending at the first NUL |
| `Common.UpTo` | operations.c:39 | the bytes before the first occurrence of a byte: a prefix that does not contain it, stopped at it |
| `Common.UpToAt` | operations.c:39-42 | the prefix ends exactly at the first occurrence, or takes the whole string when there is none |
| `Directory.Token` | operations.c:191 | `strtok(clean_name, " ")`: a run with no space in it, no longer than the field |
| `Directory.TokenEmpty` | operations.c:191 | the token is empty exactly when the field is all spaces, the case where C's `strtok` returns NULL (see Left out) |
| `Directory.FormatName` | operations.c:191 | the `"%s.%s"` display name is no longer than the name field, the '.' and the type field together |
| `Directory.FormatNameSevenBit` | operations.c:178-191 | the display name is 7-bit ASCII, because bit 7 is cleared from both fields before it is built |
| `Directory.SevenBitSlice` | operations.c:178-181 | a piece of a 7-bit field is 7-bit, so cutting at the NUL and at the spaces keeps it |
| `Directory.SevenBitJoin` | operations.c:191 | joining two 7-bit parts with the '.' gives a 7-bit name |
| `Directory.SkipSpaces` | operations.c:191 | the leading spaces `strtok` skips: a suffix that starts with a non-space, everything dropped being a space |
| `Directory.FormatNameShape` | operations.c:178-191 | for a stored 8+3 name the display name is the cleaned name up to its first space, '.', and the cleaned type, at most 12 bytes |
| `Directory.NoNulCStr` | operaciones.c:72-75 | a buffer without NUL is read back whole as a C string |
| `Directory.FormatNameFits` | operaciones.c:69-78 | every display name fits the 13-byte name buffer with its NUL, holds no NUL and holds the '.' |
| `Fcb.DriveCode` | operations.c:37 | `(drive - 'A') + 1`: 1 for A, 2 for B and so on |
| `Fcb.Prefix` | operations.c:39 | at most `n` leading bytes |
| `Fcb.Pad` | operations.c:38 | a field blanked with spaces and then overwritten from the front keeps the bytes written and is space padded after them |
| `Fcb.NameField` | operations.c:38-47 | bytes 1..11 of the block are 11 bytes |
| `Fcb.FcbImage` | operations.c:35-47 | the block one fill pass leaves is 36 bytes |
| `Fcb.FcbImageSlots` | operations.c:35-47 | byte by byte: drive code, up to 8 stem bytes, up to 3 type bytes, spaces in the rest of the name and type, zeros after byte 11 |
| `Fcb.FillFcb` | operations.c:36-47 | the fill loops leave exactly the block image and advance `name_ptr` to just past the '.' (or to the end) |
| `Fcb.CopyStem` | operations.c:39-40 | the first loop copies up to 8 bytes before the '.' into bytes 1..8 and leaves everything else as it was |
| `Fcb.CopyType` | operations.c:43-47 | after the '.', the second loop copies up to 3 bytes into bytes 9..11 |
| `Fcb.FcbBuffers.constructor` | operations.c:28-29 | the two 36-byte global blocks start zeroed |
| `Fcb.FcbBuffers.PrepareFcbAsWritten` | operations.c:32-63 | as written: the source block is filled from the name, and the destination block from where `name_ptr` was left when a source was filled; a NULL panel leaves its block unchanged |
| `Fcb.FcbBuffers.PrepareFcb` | operations.c:32-63 | as intended: both blocks are filled from the whole name, so with both panels they agree on every byte but the drive code |
| `Fcb.FormatThenFcbRoundTrip` | operations.c:178-191 | round trip: a stored space-padded name without '.' turned into a display name and back into a block gives back the cleaned 8+3 name field |
| `Fcb.StemOfDotted` | operations.c:39-44 | for `base.ext` the stem is `base` and `name_ptr` ends at `ext` |
| `Fcb.AsWrittenDestinationIsExtension` | operations.c:49-61 | as written, the destination block's name field is the extension padded to 8 with a blank type, so it differs from the source's whenever there is an extension |
| `Calendar.IsLeapYear` | operations.c:67-69 | a leap year is a multiple of 4; a century year is one exactly when it is a multiple of 400; from 1978 to 2099 the multiple-of-4 rule alone decides |
| `Calendar.DaysInYear` | operations.c:67-69 | 366 days exactly in leap years, 365 otherwise |
| `Calendar.DaysInMonth` | operations.c:72-75 | every table entry is between 28 and 31 |
| `Calendar.MonthsFillYear` | operations.c:72-75 | the twelve months of the table add up to 365, or 366 in a leap year |
| `Calendar.DaysBeforeMonthMonotone` | operations.c:106-109 | a later month starts no earlier |
| `Calendar.DaysBeforeYearMonotone` | operations.c:95-100 | each year adds at least 365 days |
| `Calendar.YearWalk` | operations.c:95-100 | the year loop ends inside a year and keeps the day count: days left plus the days of the years passed equal the days it started with |
| `Calendar.MonthWalk` | operations.c:106-109 | the month loop ends inside a month and keeps the day count the same way |
| `Calendar.YearWalkBound` | operations.c:95-100 | every year passed takes at least 365 days, so the loop ends |
| `Calendar.DayNumber` | operations.c:76-78 | the reference inverse of days_to_date: at least the day of the month, and equal to it in January 1978, so 1 January 1978 is day 1 (properties in `CalendarDateCorrect`, `DayNumberInYear`, `DayNumberInjective`) |
| `Calendar.CalendarDate` | operations.c:80-114 | what days_to_date leaves: the zero date exactly for day 0, a valid date for every other day number (its day number is proved in `CalendarDateCorrect`) |
| `Calendar.CalendarYearBound` | operations.c:80-114 | a 16-bit day number gives a year that fits the 16-bit field |
| `Calendar.CalendarDateCorrect` | operations.c:80-114 | day 0 becomes the empty date; every other day number becomes a valid date whose day number is the one converted (the reference inverse) |
| `Calendar.DayNumberInYear` | operations.c:80-114 | a valid date's day number lies after every earlier year and no later than the end of its own |
| `Calendar.DayNumberInjective` | operations.c:80-114 | two valid dates with the same day number are the same date, so the conversion has only one answer |
| `Calendar.SameDayNumberSameYear` | operations.c:95-103 | dates with the same day number are in the same year |
| `Calendar.SameDayNumberSameMonth` | operations.c:103-109 | dates of one year with the same day number are in the same month |
| `Calendar.DaysToDate` | operations.c:80-115 | days_to_date gives the empty date for day 0 and otherwise the valid date whose day number is the input, with every field fitting its width |
| `Calendar.WalkYears` | operations.c:90-100 | the year loop computes the year walk from 1978 |
| `Calendar.WalkMonths` | operations.c:103-109 | the month loop computes the month walk from January |
| `Catalog.Mark` | operations.c:133-135 | `*cpmname = '~'` marks the entry, keeps the name's length and the rest of the name, and changes no other field |
| `Catalog.Decoded` | operations.c:174-207 | the entry stored for one record: its name fits the 13-byte `cpmname` with its NUL, and a record outside the first three slots of a stamped sector gets no date; its fields are stated by `DecodedFields` |
| `Catalog.DecodedFields` | operations.c:174-207 | the stored entry: display name, attribute bit i exactly for a type byte above 0x7F, extent `s2 * 32 + ex`, the record count, and the slot's stamp (hour, minute, and the calendar date of its day number) only in a stamped sector's first three slots, zeros otherwise |
| `Catalog.DecodeRecord` | operations.c:174-207 | the loop body's record decode, with the attribute loop and the in-place date conversion, stores the decoded entry |
| `Catalog.AttributeBits` | operations.c:183-186 | the attribute loop sets bit i exactly for each type byte i with bit 7 set |
| `Catalog.RecordStamp` | operations.c:195-207 | the date-time branch copies the slot's stamp and converts its day number, or stores zeros |
| `Catalog.Live` | operations.c:174 | the records kept are the non-erased ones, drawn from the answers |
| `Catalog.LiveConcat` | operations.c:168-213 | skipping erased records works answer by answer |
| `Catalog.DecodeAll` | operations.c:174-208 | decoding a run of records decodes each one in place |
| `Catalog.LiveWellFormed` | operations.c:168-174 | the non-erased records of well-formed answers are well formed |
| `Catalog.Gathered` | operations.c:168-213 | the search loop stores no more than MAX_FILES entries and no more than there were answers (in full in `GatheredBounds`) |
| `Catalog.GatheredBounds` | operations.c:168-213 | the search loop stores at most MAX_FILES entries, the decoded non-erased records in order, and loses nothing while there is room |
| `Catalog.LiveSnoc` | operations.c:174-209 | one more answer adds its record exactly when it is not erased |
| `Catalog.DecodeAllSnoc` | operations.c:174-208 | one more record adds its decoded entry at the end |
| `Catalog.GatheredAtStop` | operations.c:168 | where the loop stops, at the end of the answers or with MAX_FILES stored, it has stored the gathered entries |
| `Catalog.LiveOfAllLive` | operations.c:174 | with no erased record every record is kept |
| `Catalog.StrCmp` | operations.c:122 | strcmp is zero exactly for equal names |
| `Catalog.StrCmpOrder` | operations.c:122-124 | strcmp's sign is the byte-wise order of the names, and exactly one of less, equal and greater holds |
| `Catalog.LexLessHead` | operations.c:122 | names in order differ at their first byte or share it |
| `Catalog.LexLessTail` | operations.c:122 | names sharing a first byte are ordered by what follows it |
| `Catalog.Compare` | operations.c:119-137 | fileNameExtentCompare: different names give the strcmp value and touch nothing; equal names copy a date onto the undated one, mark the lower extent (the second on a tie), change nothing else, and give the extent difference |
| `Catalog.NameCompare` | operations.c:141-144 | fileNameCompare is the name order in all three directions |
| `Catalog.Chain` | operations.c:119-137 | running a group through the comparator one fragment at a time gives one loser per fragment after the first |
| `Catalog.ChainMerges` | operations.c:118-137 | whatever the order of one file's extents, the comparisons mark all but one, and that one has the highest extent and the file's date |
| `Catalog.ChainMarks` | operations.c:131-135 | each comparison of two extents of one name marks one and leaves the other unmarked |
| `Catalog.ChainIntended` | operations.c:125-135 | the last extent left unmarked is the intended survivor |
| `Catalog.KeptFacts` | operations.c:125-135 | one comparison keeps the higher extent, unmarked, with the date of whichever was dated |
| `Catalog.FragmentsStep` | operations.c:125-135 | after one comparison the kept entry and the rest still form one file's extents |
| `Catalog.IntendedStep` | operations.c:125-135 | one comparison does not change which entry should survive |
| `Catalog.HighestStep` | operations.c:131-135 | the highest extent of the group is still the highest after one comparison |
| `Catalog.DateKeptStep` | operations.c:125-129 | the group's date is still carried after one comparison |
| `Catalog.Unmarked` | operations.c:223-238 | compaction never lengthens the list |
| `Catalog.UnmarkedConcat` | operations.c:223-238 | compaction works part by part |
| `Catalog.UnmarkedExactly` | operations.c:223-238 | compaction removes exactly the marked entries: none is left, every unmarked entry stays, nothing new appears, and the count drops by the number removed |
| `Catalog.UnmarkedLength` | operations.c:226-234 | the count drops by exactly the number of marked entries |
| `Catalog.UnmarkedClean` | operations.c:223-238 | no marked entry is left |
| `Catalog.UnmarkedMembers` | operations.c:223-238 | every unmarked entry stays, and nothing new appears |
| `Catalog.UnmarkedOfClean` | operations.c:223-238 | with nothing marked, nothing changes |
| `Catalog.UnmarkedKeepsOrder` | operations.c:229-238 | surviving entries keep their relative order |
| `Catalog.UnmarkedOrigin` | operations.c:229-238 | every surviving entry comes from an entry of the input |
| `Catalog.Size` | operations.c:240-241 | `(extent << 7) + rc` is the size in 128-byte records whenever it fits 16 bits |
| `Catalog.Sized` | operations.c:240-241 | the size loop rewrites each entry's extent field and nothing else |
| `Catalog.TrimMarkedTail` | operations.c:224-226 | the first loop drops only marked entries from the end and stops at an unmarked one |
| `Catalog.ShiftDown` | operations.c:233 | the memcpy moves the entries after `it` down by one and leaves the last slot and those after it as they were |
| `Catalog.ShiftedDown` | operations.c:233 | an element-wise shift is the sequence with entry `it` taken out |
| `Catalog.UnmarkedSkip` | operations.c:232-236 | taking one marked entry out does not change the unmarked entries |
| `Catalog.SqueezeMarked` | operations.c:229-238 | the second loop leaves exactly the unmarked entries, in order, in front |
| `Catalog.SqueezeOne` | operations.c:232-236 | one inner turn shifts the marked entry out, keeping the entries before it unmarked and the unmarked entries as they were |
| `Catalog.SetSizes` | operations.c:240-241 | the size loop gives every surviving entry its size and leaves the rest alone |
| `Catalog.TwoExtentExample` | operations.c:118-241 | a file of two extents (0: 10 records, dated; 1: 5 records) ends up as one entry of 133 records with the date of extent 0, whichever way round they are compared |
| `Operations.Panel.constructor` | operations.c:147-154 | a panel before its first load: the given drive, no files, cursor and first row at 0 |
| `Operations.Built` | operations.c:168-243 | the catalogue load_directory leaves holds no entry marked for removal, whatever order the sort leaves (its size bound is `BuiltBounds`) |
| `Operations.BuiltBounds` | operations.c:168-243 | a loaded catalogue never holds more than MAX_FILES entries nor an entry marked for removal |
| `Operations.StoreEntries` | operations.c:166-213 | the search loop stores exactly the gathered entries: decoded, non-erased, in order, at most MAX_FILES |
| `Operations.StoreOne` | operations.c:171-212 | one turn of the search loop stores the decoded record unless it is erased |
| `Operations.StoredSlot` | operations.c:183-208 | writing slot `count` extends the stored prefix by that entry |
| `Operations.BuildCatalog` | operations.c:166-243 | the search, sort, compaction and size loop leave the built catalogue in front of the array |
| `Operations.LoadDirectory` | operations.c:147-245 | load_directory: cursor and first row 0, the built catalogue as the panel's entries, '@' resolved through BDOS 25 and the drive selected with BDOS 14 on the device's trace, the search answers (BDOS 17 and 18) taken from the `hits` parameter rather than traced, and the wildcard left in `fcb_src` |
| `Operations.DeleteFile` | operations.c:249-253 | delete_file: -1 and no call on an empty panel, otherwise one BDOS 19 with the cursor entry's block, whose answer it returns |
| `Operations.CopyFile` | operations.c:257-273 | copy_file: -1 and no call on an empty panel, otherwise the copy protocol with the cursor entry's block on the source drive and the corrected destination block (the whole name on the destination drive, see Left out), with -2 if the source does not open, -3 if the target cannot be made, 0 after the transfer |
| `Operations.CopyFileByIndex` | operations.c:372-381 | copy_file_by_index: the copy protocol for the given entry, with the corrected destination block, without a size check, -1 when open or make fail, else 0 |
| `Operations.Unselect` | operations.c:405 | `attrib &= ~B_SEL` clears the selection and no other bit or field |
| `Operations.SelectedIndices` | operations.c:388-390 | the selected indices are indices of the panel |
| `Operations.SelectedIndicesSnoc` | operations.c:397-398 | one more entry adds its index exactly when it is selected |
| `Operations.SelectedIndicesExactly` | operations.c:388-398 | the selected indices are exactly the selected entries, each once, ascending |
| `Operations.Targets` | operations.c:392-408 | a batch always has a target: the cursor entry when nothing is selected |
| `Operations.ClearSelected` | operations.c:405 | clearing flags keeps the panel's size |
| `Operations.ClearSelectedEffect` | operations.c:397-407 | after a batch only the selected entries have changed, only in their selection bit; nothing changes when nothing was selected |
| `Operations.ClearSelectedStep` | operations.c:397-407 | one turn clears entry i's flag when it was selected |
| `Operations.Blocks` | operations.c:373 | the definition of the blocks a batch copies: each target's block on the source drive and the corrected destination block, the same name on the destination drive (what the fill loops write is proved in `Fcb.FcbBuffers.PrepareFcb`) |
| `Operations.BlocksSnoc` | operations.c:397-404 | one more target adds its pair of blocks (the destination one corrected) at the end |
| `Operations.CountSelected` | operations.c:388-390 | the counting loop counts the selected entries |
| `Operations.CopySelected` | operations.c:397-407 | the batch loop copies each selected entry in order, clearing its flag, and makes exactly those device calls |
| `Operations.CopyStep` | operations.c:398-406 | one turn of the copy loop extends the trace by the copy of entry i exactly when it is selected |
| `Operations.CopyOne` | operations.c:404-405 | one copy call on the corrected pair of blocks plus clearing the entry's flag |
| `Operations.CopyTargets` | operations.c:388-408 | the copies of exec_multi_copy: the selected entries, or the cursor entry when none is selected |
| `Operations.CopyCurrent` | operations.c:392-395 | with nothing selected exactly the cursor entry is copied |
| `Operations.ExecMultiCopy` | operations.c:385-411 | exec_multi_copy: the copies of the targets on the corrected destination blocks, then one reload of the destination; flags cleared, destination's entries the built catalogue of its drive |
| `Operations.DeleteCalls` | operations.c:431-432 | each deleted entry gives one BDOS 19 with its block |
| `Operations.DeleteCallsSnoc` | operations.c:426-432 | one more target adds its delete call at the end |
| `Operations.DeleteTargets` | operations.c:413-436 | nothing on an empty panel, the cursor entry when nothing is selected, the selected entries otherwise |
| `Operations.DeleteSelected` | operations.c:425-435 | the batch loop deletes each selected entry in order, clearing its flag, and leaves `fcb_dst` alone |
| `Operations.DeleteStep` | operations.c:426-434 | one turn of the delete loop adds entry i's delete call exactly when it is selected |
| `Operations.DeleteOne` | operations.c:431-433 | one BDOS 19 with the entry's block, then its flag cleared |
| `Operations.ExecMultiDelete` | operations.c:413-439 | exec_multi_delete: one delete per target, flags of the deleted entries cleared, no reload |
| `Cpm.Bdos.constructor` | operations.c:166 | a BDOS that has seen no call and will give the scripted answers |
| `Cpm.Bdos.Invoke` | operations.c:252 | `bdos(fn, arg)`: the call is appended to the trace and answered with the next scripted answer, 255 when none is left |
| `Cpm.Transfer` | operations.c:267-269 | the record loop makes one call per answer used, and at least one |
| `Cpm.TransferStopsAtFirstFailure` | operations.c:267-269 | records are written while both the read and the write answer 0; the loop stops after the first failing read, or after the write that fails |
| `Cpm.TransferOnlyReadsAndWrites` | operaciones.c:164-167 | the record loop only reads the source and writes the destination |
| `Cpm.CopyProtocol` | operaciones.c:159-170 | one call per answer used |
| `Cpm.CopyProtocolOutcome` | operaciones.c:159-170 | delete the destination and open the source come first; the open answer alone decides OpenFailed, the make answer CreateFailed; otherwise the copy makes, transfers and closes, and the destination is closed exactly when it was made |
| `Cpm.SameBlockCopyDeletesSource` | operaciones.c:139-160 | with both panels on one drive the copy deletes the very file it then opens |
| `Cpm.ReadWriteRecord` | operaciones.c:164-166 | one turn of the record loop continues exactly when the read and the write both answer 0 |
| `Cpm.TransferStep` | operaciones.c:164-167 | after a successful read and write the rest of the loop is the loop on the remaining answers |
| `Cpm.TransferRecords` | operaciones.c:164-167 | the record loop against the device makes the calls of the transfer and counts the records written |
| `Cpm.RunCopy` | operaciones.c:159-170 | the copy against the device makes exactly the protocol's calls and reports its outcome |
| `Cpm.CopiedTail` | operaciones.c:159-169 | when open and make succeed the calls are delete, open, make, the transfer, close |
| `Cpm.LoadCalls` | operaciones.c:49-52 | '@' costs one BDOS 25 and becomes the current drive; then BDOS 14 selects the drive; any other drive is selected at once |
| `Cpm.SelectDrive` | operations.c:156-159 | the drive selection against the device makes the calls of LoadCalls and gives its drive |
| `Cpm.CopyFileCode` | operations.c:264-272 | -2 exactly when the source does not open, -3 exactly when the destination cannot be made, 0 exactly after a transfer |
| `Cpm.IndexCopyCode` | operations.c:375-380 | 0 exactly after a transfer, -1 for either failure |
| `Cpm.CopyEach` | operaciones.c:359-369 | a batch of copies makes one call per answer used |
| `Cpm.CopyEachSnoc` | operaciones.c:359-369 | one more copy in the batch appends its protocol on the answers left |
| `Cpm.OpensConcat` | operations.c:264 | the open calls of two call lists are those of each |
| `Cpm.TransferOpensNothing` | operations.c:267-269 | the record loop opens nothing |
| `Cpm.ProtocolOpensOnce` | operations.c:263-271 | one copy opens its source block exactly once |
| `Cpm.CopyEachOpensEachOnce` | operations.c:397-407 | a batch copy opens each target's source block exactly once, in order, whatever the device answers |
| `Cpm.CopyEachAfter` | operations.c:397-407 | the device after the batch so far and one more copy is the device after the longer batch |
| `Cpm.CopyEachSingle` | operations.c:392-395 | a batch of one is that one copy |
| `Zmc.Panel.constructor` | main.c:27-30 | a panel of the static application state before its first load: 80 zeroed entries, no files, cursor and first row 0, the drive and focus flag main sets |
| `Operaciones.SizeKb` | operaciones.c:81-82 | `(rc * 128) / 1024` raised to 1: zero exactly for an empty extent, whole kilobytes rounded down from 8 records on, 1 below that |
| `Operaciones.FirstLive` | operaciones.c:62 | the loop lists at most MAX_FILES records |
| `Operaciones.Relisted` | operaciones.c:78-82 | the array after a listing has the same number of slots |
| `Operaciones.FirstLiveWellFormed` | operaciones.c:62-68 | so are the records the loop lists |
| `Operaciones.ListingShape` | operaciones.c:62-90 | a reload lists one entry per non-erased record up to MAX_FILES, named "NAME.EXT" (at most 12 bytes, with its '.') and sized in kilobytes; no selection flag is reset and the slots past the listing keep their old entries |
| `Operaciones.ReloadKeepsMarks` | operaciones.c:78-82 | a slot that was marked stays marked after a reload, whatever file it now names |
| `Operaciones.StoreListing` | operaciones.c:60-89 | the search loop leaves the relisted array and counts the records listed |
| `Operaciones.ListOne` | operaciones.c:65-88 | one turn fills slot `count` with the record's name and size unless it is erased |
| `Operaciones.RelistedSnoc` | operaciones.c:78-84 | listing one more record fills the next slot and nothing else |
| `Operaciones.FirstLiveAtStop` | operaciones.c:62 | where the loop stops, at the end of the answers or with MAX_FILES listed, it has listed the first live records |
| `Operaciones.LoadDirectory` | operaciones.c:39-91 | load_directory: cursor and first row 0, '@' resolved and the drive selected on the device, the listing in the array with its count, the focus flag untouched |
| `Operaciones.BorrarArchivo` | operaciones.c:98-125 | borrar_archivo: -1 and no call on an empty panel, otherwise one BDOS 19 with the cursor entry's block, whose answer it returns |
| `Operaciones.FillFcbPair` | operaciones.c:137-156 | the paired fill loops leave each block the image of the name on its own drive |
| `Operaciones.CopyStemPair` | operaciones.c:147-149 | the stem loop writes each stem byte into both blocks |
| `Operaciones.CopyTypePair` | operaciones.c:151-156 | the type loop writes up to 3 bytes after the '.' into both blocks |
| `Operaciones.PutTypeByte` | operaciones.c:154 | `fcb_src[9+i] = fcb_dst[9+i] = name_ptr[i]` extends the type field of both blocks by one byte |
| `Operaciones.CopiarArchivo` | operaciones.c:129-171 | copiar_archivo: -1 and no call on an empty panel, otherwise the copy protocol with the cursor entry's block on the source drive and the destination block, the whole name on the destination drive, as the code fills it, with -2 when the source does not open, -3 when the target cannot be made, 0 after the transfer |
| `Operaciones.CopiarArchivoPorIndice` | operaciones.c:309-343 | copiar_archivo_por_indice: the copy protocol for the given entry with no size check, -1 when open or make fail, else 0 |
| `Operaciones.Unmark` | operaciones.c:367 | `seleccionado = 0` unmarks the entry and changes nothing else |
| `Operaciones.MarkedIndices` | operaciones.c:350-352 | the marked indices are indices of the panel |
| `Operaciones.MarkedIndicesSnoc` | operaciones.c:359-360 | one more entry adds its index exactly when it is marked |
| `Operaciones.MarkedIndicesExactly` | operaciones.c:350-360 | the marked indices are exactly the marked entries, each once, ascending |
| `Operaciones.BatchTargets` | operaciones.c:354-370 | the marked entries in order, or the cursor entry when none is marked |
| `Operaciones.ClearMarks` | operaciones.c:367 | clearing flags keeps the panel's size |
| `Operaciones.ClearMarksEffect` | operaciones.c:359-369 | after a batch only the marked entries have changed, only in their flag; nothing changes when nothing was marked |
| `Operaciones.ClearMarksStep` | operaciones.c:359-369 | one turn clears entry i's flag when it was marked |
| `Operaciones.Pairs` | operaciones.c:314-331 | the definition of the blocks a batch copies: each target's whole-name block on the source and on the destination drive (what the fill loops write is proved in `Operaciones.FillFcbPair`) |
| `Operaciones.PairsSnoc` | operaciones.c:359-366 | one more target adds its pair of blocks, both from the whole name as the code fills them, at the end |
| `Operaciones.CountMarked` | operaciones.c:350-352 | the counting loop counts the marked entries |
| `Operaciones.CopyMarked` | operaciones.c:359-369 | the batch loop copies each marked entry in order, clearing its flag, and makes exactly those device calls |
| `Operaciones.CopyMarkedStep` | operaciones.c:360-368 | one turn of the copy loop extends the trace by the copy of entry i exactly when it is marked |
| `Operaciones.CopyMarkedOne` | operaciones.c:366-367 | one copy call on the entry's pair of whole-name blocks, as the code fills them, plus clearing the entry's flag |
| `Operaciones.CopyCursor` | operaciones.c:354-357 | with nothing marked exactly the cursor entry is copied |
| `Operaciones.CopyBatch` | operaciones.c:350-370 | the copies of ejecutar_copia_multiple: the marked entries, or the cursor entry when none is marked |
| `Operaciones.EjecutarCopiaMultiple` | operaciones.c:347-374 | ejecutar_copia_multiple: the copies of the targets, then one reload of the destination; flags cleared, destination relisted from its drive |
| `Operaciones.Deletes` | operaciones.c:400-413 | each deleted entry gives one BDOS 19 with its block |
| `Operaciones.DeletesSnoc` | operaciones.c:393-413 | one more target adds its delete call at the end |
| `Operaciones.DeleteTargets` | operaciones.c:383-417 | nothing on an empty panel, the cursor entry when nothing is marked, the marked entries otherwise |
| `Operaciones.DeleteMarked` | operaciones.c:393-416 | the batch loop deletes each marked entry in order and clears its flag |
| `Operaciones.DeleteMarkedStep` | operaciones.c:394-415 | one turn of the delete loop adds entry i's delete call exactly when it is marked |
| `Operaciones.DeleteMarkedOne` | operaciones.c:400-414 | the local block filled for entry i, one BDOS 19 with it, then its flag cleared |
| `Operaciones.EjecutarBorradoMultiple` | operaciones.c:378-420 | ejecutar_borrado_multiple: one delete per target, flags of the deleted entries cleared, no reload |
| `Vt100.Code` | vt100.c:32-75 | every command answers to a code of at least two bytes after ESC |
| `Vt100.ParseFunctionKeys` | vt100.c:27-78 | parse_function_keys: a dispatched action keeps the loop running and consumes at least one byte; only a `[` sequence (F10) ends the loop, dispatching nothing (exact codes in `CodeDispatches`, `DispatchOnlyOnCode`, `LoopEndsOnlyOnF10`) |
| `Vt100.ParseBounds` | vt100.c:27-78 | one call reads at most four bytes after the one it is given, never more than there are, and does not wait when four are there |
| `Vt100.ParseReadsOnlyUsed` | vt100.c:27-78 | the decoder looks at no byte past those it consumes |
| `Vt100.CodeDispatches` | vt100.c:30-76 | each command's code dispatches that command and reads exactly its code, whatever follows |
| `Vt100.DispatchOnlyOnCode` | vt100.c:30-76 | a command is dispatched only on its own code, and the loop goes on |
| `Vt100.LoopEndsOnlyOnF10` | vt100.c:53-58 | the call returns 0 exactly on F10 (`[21~`), which dispatches nothing |
| `Vt100.BracketTwoOneSwallowsNextKey` | vt100.c:57-60 | after `[2 1` a byte other than '~' is followed by one more read, so the decoder swallows the next key |
| `Vt100.IncompleteCodesConsumed` | vt100.c:36-52 | a page key whose second byte is not '~' consumes that byte and dispatches nothing; `[1 x ~` for x between 6 and 8 is consumed with its '~' |
| `Vt100.OtherFirstByteIgnored` | vt100.c:27-77 | a first byte other than '[' or 'O' reads nothing and dispatches nothing |
| `KeyTest.WaitKeyHw` | keytest.c:18-23 | RUB is read as backspace, every other byte as itself, so RUB is never returned |
| `KeyTest.Show` | keytest.c:34-39 | every label is printable: a caret label is '@'..'Z', a glyph is a byte from 0x20 to 0x7F (the classes in `ShowClasses`) |
| `KeyTest.ShowClasses` | keytest.c:34-39 | ESC shows as "ESC", control bytes below it as '^' and the byte plus '@', 0x20..0x7F as themselves, everything else as '.' |
| `KeyTest.ShowCollidesOnlyOnDot` | keytest.c:34-39 | two different keys get the same label only when it is '.' |
| `KeyTest.FirstEscPairFromCorrect` | keytest.c:40-42 | the search finds the first key that is an ESC right after an ESC, and answers none only when there is none |
| `KeyTest.EscOtherEscKeepsGoing` | keytest.c:42 | ESC, another key, ESC does not end the program |
| `KeyTest.Run` | keytest.c:27-45 | the loop shows every key it reads and exits exactly at the first ESC that follows an ESC, having read through it; otherwise it reads every key and keeps waiting |
| `PanelView.ClampScroll` | panel.c:26-31 | after the two adjustments the cursor is inside the 28-row window, an already visible cursor does not scroll, a cursor above becomes the first row and one below the last |
| `PanelView.ClampScrollIdempotent` | panel.c:26-31 | redrawing twice scrolls once |
| `PanelView.ClampScrollNearest` | panel.c:26-31 | the window moves no further than it has to |
| `PanelView.Screen` | panel.c:36-50 | a full redraw writes 28 rows |
| `PanelView.ScreenShowsWindow` | panel.c:36-50 | row i shows file `scroll + i` (name and size) exactly when it is below the file count, blank otherwise, and is inverse exactly for the cursor's file of a focused panel |
| `PanelView.CursorOnScreen` | panel.c:26-46 | after the scroll adjustment a listed cursor is on screen and its row is the only inverse one |
| `PanelView.DrawPanel` | panel.c:20-51 | draw_panel keeps the first row at the adjusted value and writes the 28 rows of the screen |
| `PanelView.DrawFileLine` | panel.c:52-83 | draw_file_line writes only inside the window, on screen row `idx - scroll + 2`, with '*' exactly for a marked entry and inverse exactly for the cursor of a focused panel |
| `PanelView.LineRedrawMatchesScreen` | panel.c:36-83 | a one-line redraw of a listed file writes what a full redraw writes on that row, except that the full redraw shows no '*' for a marked entry |
| `Commander.DecodeKey` | main.c:38-183 | one turn reads between 1 and 6 bytes, never more than there are, and does not wait when six are there |
| `Commander.DecodeReadsOnlyUsed` | main.c:38-183 | the loop looks at no byte past those of the key it acts on |
| `Commander.QuitOnlyOnCtrlX` | main.c:74 | the loop leaves exactly on a Ctrl-X read as a key of its own, after one byte |
| `Commander.DeleteCodesAgree` | main.c:151-157 | F8 is `ESC [ 1 9 ~` for main.c and vt100.c alike, and the key after it is the confirmation |
| `Commander.CopyCodesDisagree` | main.c:140-150 | main.c's F5 is `ESC [ 1 6 ~` while vt100.c's is `ESC [ 1 5 ~`: each decoder treats the other's F5 as no command, and main.c then reads the '~' as a key of its own |
| `Commander.KeyStream` | main.c:37-74 | the keys read never take more bytes than the input holds |
| `Commander.KeyStreamStops` | main.c:37-74 | the loop leaves exactly when it reads Ctrl-X, which is then the last key; otherwise it is waiting for a key the input does not complete |
| `Commander.NoCtrlXNoQuit` | main.c:74 | without a Ctrl-X byte the loop never leaves |
| `Commander.FoldDrive` | main.c:64-65 | lower-case letters become upper case and nothing else changes, so the result is a letter exactly when the key was one of either case |
| `Commander.Flip` | main.c:78 | `!seleccionado` is 1 exactly for 0, else 0 |
| `Commander.FlipTwice` | main.c:78 | marking twice restores whether a file is marked |
| `Commander.PageUpIdx` | main.c:127-130 | PgUp goes 18 files up and stops at the first |
| `Commander.PageDownAsWritten` | main.c:135-137 | as written, PgDn goes at most 18 files down and is clamped to `num_files - 1` |
| `Commander.PageDownAsWrittenLeavesList` | main.c:133-138 | on an empty panel PgDn as written puts the cursor at -1 and the redraw starts the window at file -1 |
| `Commander.PageDownIdx` | main.c:133-139 | as intended, PgDn stays on a listed file or on 0, moves at most 18 files down, stops at the last file, and agrees with the code on a non-empty panel |
| `Commander.PagingReturns` | main.c:125-139 | PgDn then PgUp comes back when PgDn did not stop at the end, and PgUp then PgDn does when PgUp did not stop at the start |
| `Commander.CopyCalls` | main.c:148 | the calls of copiar_archivo use one answer each and are none exactly on an empty panel |
| `Commander.DeleteCalls` | main.c:157 | borrar_archivo makes one BDOS 19, or none exactly on an empty panel |
| `Commander.App.constructor` | main.c:27-29 | the application state with its two panels and the focus on the left one |
| `Commander.App.RefreshUi` | main.c:18-24 | refresh_ui scrolls each panel so its cursor is on screen and draws both panels' screens |
| `Commander.App.Redraw` | main.c:69 | a redraw between keys changes neither panel and draws both screens |
| `Commander.App.SwitchFocus` | main.c:42-58 | TAB flips both focus flags, points the focused panel at the other one, and redraws only the two cursor lines: the new one inverse, the old one plain |
| `Commander.App.SelectDrive` | main.c:61-71 | U and a letter (either case) selects that drive on the focused panel and reloads it; any other key only redraws; the other panel is untouched |
| `Commander.App.ToggleMark` | main.c:76-86 | Space flips the cursor entry's mark, moves down unless on the last file, and redraws; nothing else changes |
| `Commander.App.CursorUp` | main.c:95-109 | Up moves one file up unless on the first; a full redraw when the cursor leaves the window, otherwise the old line plain and the new one inverse |
| `Commander.App.CursorDown` | main.c:110-124 | Down moves one file down unless on the last; redrawn as for Up |
| `Commander.App.Page` | main.c:125-139 | PgUp and PgDn move the cursor by their step, then both panels are redrawn |
| `Commander.App.CopyToOther` | main.c:140-150 | F5 then 's' or 'S' copies the cursor file to the other panel's drive and reloads that panel, with exactly those device calls; any other answer changes nothing; both panels are redrawn |
| `Commander.App.DeleteCurrent` | main.c:151-161 | F8 then 's' or 'S' deletes the cursor file and reloads the focused panel, with exactly those device calls; any other answer changes nothing; both panels are redrawn |
| `Commander.App.Step` | main.c:40-184 | one turn keeps the state valid; only a drive letter and a confirmed copy or delete call the BDOS, each taking one listing; only TAB moves the focus |
| `Commander.App.DiskStep` | main.c:61-161 | the keys that may call the BDOS do so only when they go ahead |
| `Commander.App.ScreenStep` | main.c:76-139 | the keys that only move, mark, switch or redraw keep the state valid and move the focus only for TAB |
| `Commander.App.Turn` | main.c:40-184 | one turn keeps the state valid and makes no BDOS call for a key that does not load |
| `Commander.App.Run` | main.c:37-185 | the key loop reads exactly the key stream, leaves exactly on Ctrl-X, draws once per key it acts on, and makes no BDOS call when no key loads |
| `Commander.ScannedEnd` | main.c:37-38 | when the input runs out the keys read are the whole stream |
| `Commander.ScannedQuit` | main.c:74 | Ctrl-X ends the stream |
| `Commander.ScannedStep` | main.c:37-38 | reading one more key keeps the loop's bookkeeping |
| `Commander.QuietSnoc` | main.c:37-184 | a stream stays free of BDOS calls exactly when its new key does not load |
| `Commander.Reload` | main.c:65-67 | the drive key's reload sets the drive, selects it with one BDOS 14 and relists the panel |
| `Commander.CopyAndReload` | main.c:148-149 | copiar_archivo then load_directory of the destination: the copy's calls, then the reload's |
| `Commander.DeleteAndReload` | main.c:157-158 | borrar_archivo then load_directory of the focused panel: the delete call, then the reload's |
| `Commander.Startup` | main.c:26-35 | main starts with the left panel on A with the focus and the right one on B, both loaded from the first two listings with one BDOS 14 each, then draws both |

## Left out

- The terminal output is not modelled: the escape sequences, the colours,
  `draw_frame`, the panel title and the column a panel starts at
  (`x_offset`), the prompts and the help line. A drawing records what each
  row shows.
- `wait_key_hw` of `main.c` is Z80 assembly polling a console port. The
  model replaces it with a sequence of input bytes.
- `view_file` and `dump_file` print a file page by page and wait for keys
  of their own. They are not modelled: F3 and F4 read no further keys and
  change no state. `show_header` and `show_footer` only print.
- F1 shows a help line and waits for one key. The model reads that key and
  redraws, and leaves out the help text.
- The actions `vt100.c` dispatches (`line_up`, `copy`, `help` and the
  others) are not defined in these sources. `vt100.c` is modelled as the
  decoder that chooses the action. That file's screen helpers (`goto_xy`,
  `set_invers` and the others) only print.
- `keytest.c` prints each key's code in hex and its label. The model
  records only the label (`Shown`). The `puts` banner is left out.
- `qsort` is not modelled. `Operations.LoadDirectory` takes the order the
  sort leaves as a parameter `arrange` that keeps the length. What the
  comparator does to the extents of one file is proved on its own: they
  are merged into the highest extent, which keeps the file's date
  (`Catalog.ChainMerges`, `Catalog.TwoExtentExample`).
- Directory search calls 17 and 18 are not on the BDOS trace. Their answers
  are the `hits` parameter. In the key loop those answers come from the
  queue `dirs`.
- Cpm.LoadCalls: records BDOS 25 as `WithValue(DRV_GET, 0)`. The code passes
  the FCB (`bdos(25, fcb_src)` in `operations.c`, `bdos(25, fcb)` in
  `operaciones.c`). The BDOS ignores the argument of function 25, so the
  trace leaves it out. `Cpm.SelectDrive` makes that same call.
- The C `int` of the Z80 compiler is 16 bits wide. The model uses
  unbounded integers for the panel counters (`num_files`, `current_idx`,
  `scroll_offset`), which stay between 0 and 80 in the model. Width is
  modelled where it matters: `byte` and `u16` fields, `(extent << 7) + rc` in 16
  bits (`Catalog.Size`), and the day number in 16 bits (`Calendar`).
- Commander.App.Step: states only validity, the BDOS rule and the focus
  rule, because one contract covering every key exceeds the verifier's
  resource limit. What each key does is stated by the method it dispatches
  to (`SwitchFocus`, `SelectDrive`, `ToggleMark`, `CursorUp`, `CursorDown`,
  `Page`, `CopyToOther`, `DeleteCurrent`, `Redraw`).
- Commander.App.DiskStep: states only what `Step` states, for the same
  reason.
- Commander.App.ScreenStep: states only what `Step` states, for the same
  reason.
- Commander.App.Turn: states only validity and that a key that does not
  load makes no BDOS call. It is the form of `Step` the key loop uses.
- Commander.App.Run: states the keys read, when the loop stops, one
  drawing per key acted on, and no BDOS traffic from keys that do not load.
  It does not state the final panels as a function of the whole input.
- The key loop takes the corrected PgDn step (`Commander.PageDownIdx`),
  not the one written (see Findings). This is also why
  the members that act on the cursor entry may require a cursor inside the
  array: `Operations.DeleteFile`, `Operations.CopyFile`,
  `Operations.CopyTargets`, `Operations.CopyCurrent`,
  `Operations.ExecMultiCopy`, `Operations.ExecMultiDelete`,
  `Operaciones.BorrarArchivo`, `Operaciones.CopiarArchivo`,
  `Operaciones.CopyCursor` and `Operaciones.CopyBatch`. As written, a PgDn
  on an empty panel leaves `current_idx` at -1, and the C functions are
  then reached with it.
- Operations.CopyFile: the destination block is the corrected one, the
  whole name on the destination drive. As written, `prepare_fcb` fills
  `fcb_dst` from the text after the '.', so the copy deletes, makes, writes
  and closes a file named after the extension (see Findings).
- Operations.CopyFileByIndex: uses the corrected destination block, as
  `Operations.CopyFile` does.
- Operations.Blocks: pairs each target with the corrected destination block.
- Operations.BlocksSnoc: is about the corrected `Operations.Blocks`.
- Operations.CopyOne: copies onto the corrected destination block.
- Operations.CopySelected: its trace is over the corrected `Operations.Blocks`.
- Operations.CopyStep: extends the trace with the corrected destination block.
- Operations.CopyTargets: its copies use the corrected `Operations.Blocks`.
- Operations.CopyCurrent: copies the cursor entry onto the corrected
  destination block.
- Operations.ExecMultiCopy: its copies use the corrected destination blocks.
- Directory.Token: for a name field of spaces only, `strtok` returns NULL
  and `sprintf` with `%s` of NULL is undefined in C. The model gives the
  empty stem there, so the display name is `.EXT`.
- Cpm.Bdos.Invoke: the BDOS never writes into the FCB it is given. A real
  `F_OPEN` fills the allocation map, and `F_READ` and `F_WRITE` advance the
  record counter in `fcb_src` and `fcb_dst`. The trace records only the
  bytes the program itself puts in the block, so "the same block on every
  read and write" and "the wildcard block left in `fcb_src`" are stated
  about those bytes.
- The static `esc` flag of `keytest.c` is a loop variable of
  `KeyTest.Run`. It is the same thing, because `main` runs only once.

## Findings

| source | as written | input that shows it | evidently intended | confidence | as-written member | corrected member |
|---|---|---|---|---|---|---|
| operations.c:49-61 | `prepare_fcb` fills the destination FCB from `name_ptr` where the source pass left it, just past the '.', so the destination's name field is the extension and its type is blank | `copy_file` of `README.TXT` from A: to B: gives a destination block named `TXT` with a blank type | both FCBs filled from the whole name, differing only in the drive code | not executed | `Fcb.FcbBuffers.PrepareFcbAsWritten`, `Fcb.AsWrittenDestinationIsExtension` | `Fcb.FcbBuffers.PrepareFcb` |
| main.c:133-139 | PgDn clamps the cursor to `num_files - 1`, which is -1 on an empty panel; `refresh_ui` then scrolls to -1 and `draw_panel` reads `files[-1]` | PgDn (`ESC [ 6 ~`) on a panel of a drive with no files | the cursor stays at 0 on an empty panel | not executed | `Commander.PageDownAsWritten`, `Commander.PageDownAsWrittenLeavesList` | `Commander.PageDownIdx` |
