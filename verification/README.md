# Verification of the libmdbx dump format and of the small machines around it

This project models the parts of the repository whose whole logic can be read in its sources, and proves what those
parts are for. The storage engine in `libmdbx/mdbx.c` is not modelled: it appears as the effect of the calls that the
modelled code makes, as `mdbx.c` has it where an effect is subtle (opening and emptying a table, binding a cursor,
storing a canary). Two small algorithms are taken from it, the search in page lists and the 128-bit product.

## What is modelled

**Dump files** (`libmdbx/mdbx_dump.c`, `libmdbx/mdbx_load.c`). A dump is text: a header of `keyword=value` lines, then
one line for each key and each value, then `DATA=END`. A value is written in hexadecimal ("bytevalue") or as escaped
text ("print"); in concise mode a key that is the same as the one before is written as a single space, which the reader
notices by looking one character ahead and pushing it back.

- `Codec` has the two encodings, the branch-free hexadecimal arithmetic in 8-bit integers, and the decoder that writes
  over the line it reads.
- `LineReader` has `fgets`, `ungetc`, the line buffer that doubles while a line is read, and `readline` over real
  arrays; `LineFacts` says what `readline` does with the lines that are printed, and with any text.
- `Tables` is a table seen from outside: keys with one value, or with several in a DUPSORT table, and what putting a
  list of records does to it.
- `Loading` is the record loop of `main` in `mdbx_load.c`, with its checkpoints and the final commit. The engine is an
  arbitrary function from the number of puts so far to the answers to the calls made next, so that every batch size,
  dirty limit, moment of a checkpoint and moment of a failure is covered.
- `Dumping`, `Restoring`: the record loops of `dump_tbl`, and exactly which tables come back.
- `Numbers`, `Header`, `HeaderEntries`, `HeaderReader`, `HeaderDump`, `HeaderRestore`: `strtoull` and `sscanf` as far as
  the header uses them, the keyword dispatch of `readhdr`, the header that `dump_tbl` prints, and what of it comes back.
- `Skipping` is what happens to the records that the loop leaves unread when it stops at a refused one.
- `Files` puts headers and tables together: the table loop of `main`, what loading a whole dump file into any database
  leads to, and its restoration in an empty one.

Methods follow the loops of the C code over mutable objects (input, output, buffers, the loader's file-level variables)
and are proved equal to functions on values; the theorems are about those functions.

**Option parsing** (`libmdbx/mdbx-wingetopt.h`). `Getopt` has the machine with its static position `sp`, and a grammar
of command lines in the sense of section 12.2 of POSIX.1-2008 XBD, guidelines 5, 6 and 10.

**Page-number lists and integers** (`libmdbx/mdbx-internals.h`). `PageLists` has the searches, down to the halving loops
of `mdbx.c`, the two-element span test and the span scan over descending lists, `PowerOfTwo` the rounding by masks,
`ListSizes` the allocation sizes, and `WideIntegers` the 128-bit operations on 64-bit halves and the product of 32-bit
ones. Wrap-around is written out everywhere.

**Go state machines** (`mdbx/msgfunc.go`, `mdbx/cursor.go`). `ReaderRegistry` has the callback registry with its 32-bit
counter as a class, and any interleaving of any number of concurrent `ReaderList` calls as a run of atomic steps.
`CursorPool` has Go cursors, C handles and the pool as classes, and any sequence of operations as a run.

**Version strings** (`libmdbx/conanfile.py`). `Semver` has the language of the regular expression, the two printing
functions, and a deterministic parser that is proved to recognise that language.

## Main results

- `Files.FileRoundTrip`: dumping any list of restorable tables in either encoding, with or without key elision, and
  loading the file into an empty database gives back every table with its flags, sequence and records, and no other,
  for all batch sizes, dirty limits and checkpoints.
- `Files.FileLoads`: which rows each table ends up with when a dump is loaded into any database that it fits, with or
  without `-N`, `-p` and `-r`, with the loop as meant or as written.
- `Files.LoadExtends`: whatever the input and whether the load succeeds or fails, no table of the database is dropped;
  without `-p` no key is dropped, no sequence is turned back and a table with rows keeps its flags, and with `-N`
  nothing is overwritten.
- `Restoring.DumpThenLoadIff`: a table comes back from its dump if and only if the encoding is bytevalue or no key and
  no value starts with a space.
- `Loading.CheckpointTransparency`, `Loading.LossIsBounded`: what is committed is always the result of putting a prefix
  of the input in one go, all of it when the loop reaches the end of the table and the commit succeeds; with any options
  a load that fails loses exactly the records stored since its last checkpoint, at most one batch if there is a limit.
- `Loading.LiteralLoopIsRightIff`, with `LiteralLoopStops` for `-N` and `LiteralRescueStops` for `-r`: what a loop that
  goes on after a refused record commits, what the loop as written commits, and exactly when the two agree.
- `HeaderRestore.HeaderRoundTrip` with `NameRestoredIff`, `GeometryRestoredIff` and `CanaryStoredIff`: what a header
  restores, each with the exact condition. `FlagsRestoredIff` and `CanaryRestoredIff` make preconditions exact that the
  engine grants: flags for duplicates come with DUPSORT, and a canary has a `v` once another of its numbers was set.
- `Getopt.ParseAll`, `Getopt.ParseRendered`, `Getopt.RenderParsed`: parsing and rendering of command lines are inverse,
  and an option loop sees exactly the options of the unique command line that its arguments spell.
- `PageLists.SearchNochk`: both forms of the halving search, with and without conditional moves, find the first page not
  above the one searched for. `PageLists.ContainsSpanGuardIff`: exactly when the two-element span test, which has no
  bound check, is right.
- `ReaderRegistry.CallersAreIndependent`, `ReaderRegistry.RegisterPanicsIff`, `ReaderRegistry.NoPanic`: callers never
  get each other's records although handles wrap, and exactly when registering panics; `ReaderRegistry.WrapPanicHappens`
  is a run in which it does.
- `CursorPool.ClosedAtMostOnce`, `CursorPool.BoundCursorNamesItsTxn`, `CursorPool.PoolStaysClean`.
- `WideIntegers.MulIsExact`: the product put together from 32-bit halves is exact, no partial sum wraps.
- `Semver.ParseIff`, `Semver.PrintParsed`.

## Where the code and its documentation differ

- The manual page (`libmdbx/man1/mdbx_load.1:118`) and the usage text (`libmdbx/mdbx_load.c:486`) say that `-N` skips
  records that exist. The `continue` at `libmdbx/mdbx_load.c:832` goes back to a loop condition that tests the code of
  the skipped record, so the first existing key ends the table. The `continue` of rescue mode at line 836 does the same
  for a record of a refused size. `Config.resume` selects the loop as meant (true) or as written (false);
  `Restoring.LiteralKeepExample` and `Restoring.LiteralRescueExample` are two dumps on which they differ,
  `Loading.LiteralLoopIsRightIff` says exactly when they do not.
- After such a stop the rest of the table is read as header lines. They are passed over whatever the values in bytevalue
  mode, and in print mode unless a keyword occurs in a line beyond the end of the buffer: `Skipping.RecordsAreIgnored`,
  `BytevaluePasses`, `ShortPasses`. A printed value that goes on with `HEADER=END` where the buffer is full ends a
  header inside the table, with the name and flags reset, and the records after it are loaded into the main table:
  `Skipping.LeftOverEndsHeader`, `Files.LeftOverGoesToMain`.
- `-p` empties a table after its sequence was set (`libmdbx/mdbx_load.c:776-800`), and emptying a table that has rows
  resets its sequence (`libmdbx/mdbx.c:37597`), so that the dumped one is lost: `Files.SequencesLoadedIff`.
- A value that starts with a space is printed as it is (`libmdbx/mdbx_dump.c:78`) and read as a repeat marker
  (`libmdbx/mdbx_load.c:397`): `LineFacts.SpaceIsMisread`, `Restoring.DumpThenLoadIff`.
- With `-T` lines have no leading space of their own, so `readline` reports a line that starts with a space as read
  without consuming anything. `LineFacts.NoHeaderAdvancesIff`: these are exactly the lines that it does not get past.
- A database of fixed size is dumped without its growth step and shrink threshold (`libmdbx/mdbx_dump.c:125`).
- The `v` of a canary is dumped and parsed (`libmdbx/mdbx_dump.c:138`, `libmdbx/mdbx_load.c:322`), but
  `mdbx_canary_put` takes only `x`, `y` and `z` (`libmdbx/mdbx.h:4777`): `HeaderRestore.CanaryStoredIff`.
- The span test of page lists looks at the slot past the end (`libmdbx/mdbx-internals.h:3860`), against which the
  membership test guards: `PageLists.ContainsSpanGuardIff`, with `PageLists.SlotPastTheEndExample`.
- The range asserted in `pnl_bytes2size` (`libmdbx/mdbx-internals.h:3740`) is tested before halving and does not cover
  the upper half of the sizes that `pnl_size2bytes` admits: `ListSizes.AssertedRangeIff`.

## Model

| member | source | states |
|---|---|---|
| `Codec.HexDigit` | libmdbx/mdbx_dump.c:86-87 | the branch-free digit is the hexadecimal digit of the nibble |
| `Codec.UnhexNibble` | libmdbx/mdbx_load.c:362-372 | the signed 8-bit arithmetic yields the digit's value for all 22 digits |
| `Codec.Unhex` | libmdbx/mdbx_load.c:362-372 | two digits give the byte 16 times the first plus the second |
| `Codec.DecodeEncode` | libmdbx/mdbx_dump.c:73-90 | decoding what was encoded gives the value back, for every byte string in both modes |
| `Codec.EncodeInjective` | libmdbx/mdbx_dump.c:73-90 | no two values are printed alike |
| `Codec.EncodeIsPrintable` | libmdbx/mdbx_dump.c:73-90 | a printed value holds no newline, no NUL, nothing outside 0x20..0x7E |
| `Codec.EncodeLeadingSpace` | libmdbx/mdbx_dump.c:78-80 | a printed value starts with a space exactly when print mode prints a value that does |
| `Codec.DecodeAcceptsExactly` | libmdbx/mdbx_load.c:431-459 | the decoder accepts exactly the lines made of literals, doubled backslashes and hexadecimal escapes, and yields what they stand for |
| `Codec.DumpByte` | libmdbx/mdbx_dump.c:76-88 | one turn of the loop appends the encoding of one byte |
| `Codec.DumpVal` | libmdbx/mdbx_dump.c:73-90 | the loop appends a space, the encoded value and a newline |
| `Codec.OddLength` | libmdbx/mdbx_load.c:450-452 | a bytevalue line of odd length is never valid, so the early test rejects nothing else |
| `Codec.DecodeUnit` | libmdbx/mdbx_load.c:434-458 | one turn reads one unit, writes one byte not after the read position, and changes nothing else |
| `Codec.DecodeInPlace` | libmdbx/mdbx_load.c:431-463 | decoding over its own input rejects exactly the malformed lines and otherwise leaves exactly the functional decoder's bytes, without touching anything from the line's end on |
| `LineReader.Chunk` | libmdbx/mdbx_load.c:403-403 | fgets takes a prefix that fits, and something whenever there is something |
| `LineReader.Stdin.Fgetc` | libmdbx/mdbx_load.c:380-396 | one character, or nothing at the end |
| `LineReader.Stdin.Ungetc` | libmdbx/mdbx_load.c:397-398 | one character goes back |
| `LineReader.Stdin.Fgets` | libmdbx/mdbx_load.c:403-423 | the chunk lands at the given place, NUL-terminated, and what is before it stays |
| `LineReader.Realloc` | libmdbx/mdbx_load.c:412-419 | the grown block keeps the old characters |
| `LineReader.GrowOnce` | libmdbx/mdbx_load.c:410-426 | one turn doubles the capacity and appends to what was read, inside the new block |
| `LineReader.GrowLine` | libmdbx/mdbx_load.c:410-426 | the doubling loop ends and equals its specification on values |
| `LineReader.FrameLine` | libmdbx/mdbx_load.c:400-429 | the line with its first character, for any buffer |
| `LineReader.FinishLine` | libmdbx/mdbx_load.c:427-463 | newline stripped, decoded in place, delivered in the line buffer; a malformed line leaves the output alone |
| `LineReader.Readline` | libmdbx/mdbx_load.c:374-464 | the whole of readline on real buffers equals its specification: status, value, unread input and capacity; a repeat marker leaves the output untouched |
| `LineFacts.GrowWholeLine` | libmdbx/mdbx_load.c:410-426 | the loop returns the whole line whatever the capacity, and leaves what follows |
| `LineFacts.FrameWholeLine` | libmdbx/mdbx_load.c:400-429 | so does the reading of a line as a whole, for every capacity from 3 on |
| `LineFacts.ReadOneLine` | libmdbx/mdbx_load.c:374-464 | a line's result depends on the line alone, and it consumes exactly that line |
| `LineFacts.ReadField` | libmdbx/mdbx_load.c:374-464 | a dumped value that does not start with a space in print mode is read back, consuming exactly its own line |
| `LineFacts.SpaceIsMisread` | libmdbx/mdbx_load.c:397-398 | every printed value that does start with one is taken for a repeat marker and stays unread |
| `LineFacts.ReadRepeat` | libmdbx/mdbx_load.c:393-398 | a repeat marker consumes one character net |
| `LineFacts.ReadDataEnd` | libmdbx/mdbx_load.c:383-388 | the end mark is recognised and consumed with its line |
| `LineFacts.ReadLineProgress` | libmdbx/mdbx_load.c:374-464 | with a header, every successful read consumes something, on any input |
| `LineFacts.NoHeaderSpaceSticks` | libmdbx/mdbx_load.c:393-398 | without a header, a line that starts with a space is reported as read, and nothing is consumed |
| `LineFacts.NoHeaderAdvancesIff` | libmdbx/mdbx_load.c:374-464 | without a header, a successful read consumes something exactly when the line does not start with a space |
| `LineFacts.NoSpaceRead` | libmdbx/mdbx_load.c:374-464 | print mode delivers no value that starts with a space from text without an escaped space |
| `Tables.PutAllAppend` | libmdbx/mdbx_load.c:813-842 | putting two lists in turn is putting their concatenation |
| `Tables.PutAllKeeps` | libmdbx/mdbx_load.c:830-842 | no put removes a key, and with MDBX_NOOVERWRITE none changes the values of a key that was there |
| `Tables.UpsertRestores` | libmdbx/mdbx_load.c:830-842 | putting a full listing of a table into an empty one rebuilds it, with or without DUPSORT |
| `Tables.KeepMerges` | libmdbx/mdbx_load.c:567-567 | putting with MDBX_NOOVERWRITE and skipping the refused records is the existing-wins merge |
| `Tables.KeepIsExistingWins` | libmdbx/mdbx_load.c:486-486 | for a unique-key listing that merge is the union in which the target's rows win |
| `Tables.PutAllAddsNothing` | libmdbx/mdbx_load.c:830-830 | a table holds nothing that was not put |
| `Tables.PutAllIsNothingIff` | libmdbx/mdbx_load.c:830-842 | putting records changes nothing exactly when the table holds everything that they decide, with any options |
| `Tables.StoppingIsHarmlessIff` | libmdbx/mdbx_load.c:831-837 | stopping at the first refused record, whatever it was refused for, gives the intended result exactly when the table by then holds everything that the later records decide |
| `Tables.KeepStoppingIsHarmlessIff` | libmdbx/mdbx_load.c:831-832 | for -N: exactly when no later record brings a new key |
| `Tables.RescueStoppingIsHarmlessIff` | libmdbx/mdbx_load.c:833-837 | for -r into an empty table, records not repeated: exactly when all later records are of a refused size too |
| `Tables.KeepRestoresIff` | libmdbx/mdbx_load.c:567-567 | with -N a listing is restored in full exactly when every key has a single value |
| `Loading.PullRecord` | libmdbx/mdbx_load.c:814-828 | a pair that is read consumes input, and the buffers never shrink |
| `Loading.StoreRecord` | libmdbx/mdbx_load.c:830-869 | one put with its checkpoint decision equals its specification, including every early exit |
| `Loading.ReadPair` | libmdbx/mdbx_load.c:812-828 | the two reads of one turn, with the last key and value kept in their buffers |
| `Loading.LoadOne` | libmdbx/mdbx_load.c:813-870 | one turn of the record loop leaves exactly the rest of the run to do |
| `Loading.LoadRecords` | libmdbx/mdbx_load.c:811-870 | the record loop ends and equals its specification: how it stopped, the rows, the saved rows, the unread input |
| `Loading.SavedIsPrefix` | libmdbx/mdbx_load.c:844-869 | what checkpoints save is the one-go result of a prefix of the records |
| `Loading.EndedPutsAll` | libmdbx/mdbx_load.c:813-870 | a loop that reaches the end of the table has put every record |
| `Loading.SkippedPutsPrefix` | libmdbx/mdbx_load.c:831-837 | a loop left at a skip has put the records before the first refused one |
| `Loading.CheckpointTransparency` | libmdbx/mdbx_load.c:805-882 | for all batch sizes, limits and engines, what is committed, if anything, is the one-go result of a prefix of the records, and of all of them when the loop ends the table and the commit succeeds |
| `Loading.RunOutcome` | libmdbx/mdbx_load.c:813-870 | with well-formed input and a granting engine the loop ends the table, or stops at the first refused record when it does not resume |
| `Loading.RefusedSizeFailsIff` | libmdbx/mdbx_load.c:833-841 | without rescue mode a load of well-formed input fails exactly when the table refuses the size of some record |
| `Loading.RunKeepsRoom` | libmdbx/mdbx_load.c:844-869 | over any run: when the loop goes on or ends, the batch is not full and the dirty and remaining space last asked for are within their limits; even where it fails at most one batch is unsaved |
| `Loading.RunLags` | libmdbx/mdbx_load.c:813-870 | over any run with any options, the saved rows are those of a prefix of the records put, and the counter is the number stored since |
| `Loading.LossIsBounded` | libmdbx/mdbx_load.c:842-882 | with any options, a failed load loses exactly the records stored since its last checkpoint, at most one batch when there is a limit |
| `Loading.ResumingLoopCommits` | libmdbx/mdbx_load.c:831-837 | a loop that goes on after every refused record commits the one-go result of all records |
| `Loading.ResumingLoopMerges` | libmdbx/mdbx_load.c:567-567 | for -N that is the existing-wins merge with all records |
| `Loading.LiteralLoopCommits` | libmdbx/mdbx_load.c:813-837 | the loop as written commits what putting up to the first refused record gives, refused for its key or its size |
| `Loading.LiteralLoopIsRightIff` | libmdbx/mdbx_load.c:813-837 | with -N, -r or both, it commits what it is meant to exactly when the table by then holds everything that the later records decide |
| `Loading.LiteralLoopStops` | libmdbx/mdbx_load.c:813-832 | with -N it commits the merge with the records before the first existing key, which is the intended result exactly when no later record has a new key |
| `Loading.LiteralRescueStops` | libmdbx/mdbx_load.c:813-837 | with -r into an empty table it commits the records before the first of a refused size, which is the intended result exactly when all later ones are refused too |
| `Dumping.DumpDuplicate` | libmdbx/mdbx_dump.c:192-193 | one turn of the inner loop prints a repeat marker and a value |
| `Dumping.DumpDuplicates` | libmdbx/mdbx_dump.c:187-194 | the inner loop prints the further values of a key, each after a single space, and stops at the next key |
| `Dumping.DumpRecord` | libmdbx/mdbx_dump.c:184-185 | a record is printed as its key and its value |
| `Dumping.DumpKey` | libmdbx/mdbx_dump.c:184-197 | one turn of the outer loop prints a record and, in concise mode, the rest of its key |
| `Dumping.DumpRecords` | libmdbx/mdbx_dump.c:179-198 | the nested loops print every record, eliding exactly the repeated keys |
| `Dumping.PullDumped` | libmdbx/mdbx_load.c:814-828 | reading one dumped record, elided key or not, gives that record and leaves the next |
| `Dumping.NextDumped` | libmdbx/mdbx_load.c:814-828 | the first turn over a dumped table reads its first record and leaves the loop at the next, or at the end |
| `Dumping.RecordsOfDump` | libmdbx/mdbx_load.c:812-830 | the loader reads back exactly the dumped pair sequence and stops right after the end mark |
| `Restoring.RecordsHaveNoSpace` | libmdbx/mdbx_load.c:374-464 | no record read from a print-mode dump has a field that starts with a space |
| `Restoring.DumpThenLoad` | libmdbx/mdbx_load.c:811-882 | a restorable table comes back from its dump, and the text after it stays unread |
| `Restoring.DumpThenLoadIff` | libmdbx/mdbx_load.c:811-882 | it comes back exactly when it is restorable |
| `Restoring.LiteralKeepExample` | libmdbx/mdbx_load.c:831-832 | a dump of two records on which the loop as written with -N does not add the new key |
| `Restoring.LiteralRescueExample` | libmdbx/mdbx_load.c:833-837 | a dump of two records on which the loop as written with -r loads nothing |
| `Skipping.LineIsIgnored` | libmdbx/mdbx_load.c:168-352 | a line of any length is passed over, piece by piece, when no keyword starts it and none occurs in it from the end of the buffer on |
| `Skipping.BytevaluePasses` | libmdbx/mdbx_load.c:178-342 | no keyword is spelled in hexadecimal digits, so that any value in bytevalue mode is passed over |
| `Skipping.ShortPasses` | libmdbx/mdbx_load.c:170-170 | nor does one claim part of a line that the buffer holds |
| `Skipping.RecordsAreIgnored` | libmdbx/mdbx_load.c:168-352 | records left unread are passed over as header lines, up to the next header, when no keyword occurs in a line beyond the buffer |
| `Skipping.LeftOverEndsHeader` | libmdbx/mdbx_load.c:159-346 | in print mode a left-over value that goes on with the end mark where the buffer is full ends a header inside the table, with name and flags reset |
| `Skipping.SkippedLeaves` | libmdbx/mdbx_load.c:813-837 | a loop that stops at a refused record leaves exactly the records after it and the end mark |
| `Numbers.StrtoullPrinted` | libmdbx/mdbx_load.c:100-113 | a printed 64-bit number is read back, in base 0 too |
| `Numbers.ScanPrintedFields` | libmdbx/mdbx_load.c:301-323 | a printed field list is read back by the matching sscanf format |
| `Numbers.U64Length` | libmdbx/mdbx_dump.c:126-162 | a 64-bit number has at most 20 digits |
| `Header.OtherKeyword` | libmdbx/mdbx_load.c:83-98 | a keyword never claims another keyword's line, prefixes included |
| `Header.OwnKeyword` | libmdbx/mdbx_load.c:83-98 | it claims its own line and returns the text without the newline |
| `Header.NameIsUnique` | libmdbx/mdbx_load.c:178-342 | no two keywords tested are spelled alike |
| `Header.DispatchOwn` | libmdbx/mdbx_load.c:178-346 | a keyword line is handled by its own test and by no earlier one |
| `Header.ReadKeyLine` | libmdbx/mdbx_load.c:178-346 | the same for the full list of tests in the source's order |
| `Header.BlankIsIgnored` | libmdbx/mdbx_load.c:348-350 | a blank line changes nothing |
| `HeaderEntries.ActOnEntry` | libmdbx/mdbx_load.c:178-340 | every printed value does to the loader's variables what its line is meant to |
| `HeaderEntries.ReadEntryLine` | libmdbx/mdbx_load.c:159-354 | every printed header line, with or without its newline, has its meaning and no other effect |
| `HeaderEntries.ReadEndLine` | libmdbx/mdbx_load.c:342-346 | the last header line ends the header |
| `HeaderReader.LoaderState.Readhdr` | libmdbx/mdbx_load.c:159-354 | the loop over fgets equals its specification: variables, unread input, end of input, exit |
| `HeaderReader.ReadTextLine` | libmdbx/mdbx_load.c:170-176 | a line that fills the buffer up to its newline is read as one line |
| `HeaderReader.ReadEntries` | libmdbx/mdbx_load.c:168-352 | a printed header applies its lines in turn and nothing after it is consumed |
| `HeaderDump.PrintEnv` | libmdbx/mdbx_dump.c:123-139 | the lines printed once: geometry unless the size is fixed, map size, canary if set |
| `HeaderDump.PrintFlags` | libmdbx/mdbx_dump.c:151-153 | one line for each flag that is set, in the table's order |
| `HeaderDump.PrintHeader` | libmdbx/mdbx_dump.c:122-164 | the whole header, first table or later one |
| `HeaderDump.EntryFits` | libmdbx/mdbx_load.c:170-170 | every header line but a long table name fits 128 characters |
| `HeaderRestore.HeaderRoundTrip` | libmdbx/mdbx_load.c:159-354 | reading a printed header restores format, name, flags, sequence and, for the first table, page size, geometry and canary |
| `HeaderRestore.FlagsRestoredIff` | libmdbx/mdbx_dump.c:150-153 | the flags come back exactly when duplicate-related flags come with DUPSORT, as the engine demands |
| `HeaderRestore.NameRestoredIff` | libmdbx/mdbx_load.c:217-229 | a name comes back exactly when it is not empty, has no newline and fits the line buffer |
| `HeaderRestore.GeometryRestored` | libmdbx/mdbx_load.c:684-707 | the arguments of the geometry call are the dumped limits, or the one size of a fixed-size database |
| `HeaderRestore.GeometryRestoredIff` | libmdbx/mdbx_load.c:684-707 | all limits come back exactly when the size is not fixed or there is nothing to lose |
| `HeaderRestore.CanaryRestoredIff` | libmdbx/mdbx_dump.c:131-138 | the canary reaches the loader's variable exactly when its `v` is set or all are zero, as the engine grants |
| `HeaderRestore.CanaryStoredIff` | libmdbx/mdbx_load.c:753-762 | a new database gets the user's three numbers; the whole canary comes back exactly when `v` is the loading transaction's number, or zero if the three are |
| `Files.Dumper.DumpTbl` | libmdbx/mdbx_dump.c:100-207 | one table's text is appended, and the global lines are printed once |
| `Files.LoadTable` | libmdbx/mdbx_load.c:747-889 | the transaction of one table equals its specification, with what is on disk when it fails; an empty table is created anew with the given flags, and one with rows must have them |
| `Files.LoadAllTables` | libmdbx/mdbx_load.c:741-896 | the table loop ends and equals its specification, with what is on disk when it fails |
| `Files.ReadLinesShrinks` | libmdbx/mdbx_load.c:168-352 | a header that is read consumes input, so the table loop ends |
| `Files.OneTableCommits` | libmdbx/mdbx_load.c:811-882 | the transaction of a dumped table commits the rows that its records lead to, with all of them or with those before the first refused one |
| `Files.NextHeaderFound` | libmdbx/mdbx_load.c:891-893 | wherever the loop stops in a table, the next header read is the next one in the file, in print mode if no keyword occurs beyond the buffer |
| `Files.LeftOverGoesToMain` | libmdbx/mdbx_load.c:741-893 | where such a value is left over, the records after it are loaded into the main table |
| `Files.TableTurn` | libmdbx/mdbx_load.c:741-896 | one turn of the table loop stores the table under its name and goes on at the next header |
| `Files.WithTablesAt` | libmdbx/mdbx_load.c:764-767 | tables of different names do not get in each other's way |
| `Files.WithTablesElsewhere` | libmdbx/mdbx_load.c:764-767 | a table that is not in the dump stays as it was |
| `Files.TablesLoad` | libmdbx/mdbx_load.c:741-896 | the table loop loads the remaining tables of a dump, each under its name |
| `Files.CommittedTableExtends` | libmdbx/mdbx_load.c:764-882 | without -p, what is committed of an existing table keeps its keys and, if it had rows, its flags, never turns its sequence back, and with -N keeps every value |
| `Files.LoadExtends` | libmdbx/mdbx_load.c:741-896 | the same for all tables of a database and any input, whether the load succeeds or fails; no table is dropped even with -p |
| `Files.FileLoads` | libmdbx/mdbx_load.c:650-896 | loading a dump into any database that it fits, with any of -N, -p and -r and with either loop: each table has its flags, its sequence unless purging rows reset it, and the rows its records lead to, the others stay |
| `Files.SequencesLoadedIff` | libmdbx/mdbx_load.c:776-800 | a table of a loaded file has the dumped sequence exactly when it had no rows to be purged or the sequence is 0 |
| `Files.FileRoundTrip` | libmdbx/mdbx_load.c:650-896 | a dump file of restorable tables restores them all, and nothing else |
| `Getopt.WordsSplit` | libmdbx/mdbx-wingetopt.h:71-111 | what is left to parse is split as the grammar says |
| `Getopt.SplitIsUnique` | libmdbx/mdbx-wingetopt.h:71-111 | there is exactly one way to split a command line |
| `Getopt.ParseRendered` | libmdbx/mdbx-wingetopt.h:71-111 | rendering a command line and parsing it gives it back |
| `Getopt.RenderParsed` | libmdbx/mdbx-wingetopt.h:71-111 | every argument vector is a command line, and parsing finds which |
| `Getopt.PendingLetter` | libmdbx/mdbx-wingetopt.h:84-109 | a letter without argument, legal or not, is the next event, and reading goes on right after it |
| `Getopt.PendingArgument` | libmdbx/mdbx-wingetopt.h:93-102 | an option with an argument, attached, separate or missing, is the next event and ends its word |
| `Getopt.StyleIsIrrelevant` | libmdbx/mdbx-wingetopt.h:71-111 | grouped and separate letters, attached and separate arguments give the same options |
| `Getopt.Parser.Next` | libmdbx/mdbx-wingetopt.h:71-111 | one call reports the next event, keeps the position valid and moves it forward, or returns EOF at the first operand |
| `Getopt.Parser.ReadLetter` | libmdbx/mdbx-wingetopt.h:84-110 | a letter is reported through the result, optopt and optarg |
| `Getopt.Parser.ReadArgument` | libmdbx/mdbx-wingetopt.h:93-102 | its argument is found, or reported missing, and the position is at the start of an argument again |
| `Getopt.ParseAll` | libmdbx/mdbx-wingetopt.h:71-111 | every option loop ends, sees exactly the options of the command line, and leaves optind at the first operand |
| `PageLists.HalveByMove` | libmdbx/mdbx.c:4434-4445 | a step with a conditional move keeps the position searched for in the window, which it halves |
| `PageLists.HalveByJump` | libmdbx/mdbx.c:4447-4461 | so does a step with a jump, and the window gets smaller |
| `PageLists.SearchNochk` | libmdbx/mdbx.c:35420-35430 | either halving loop finds the first position whose page is not above the one searched for |
| `PageLists.SearchFinds` | libmdbx/mdbx-internals.h:3810-3810 | the first position not above a page is where the page is, if it is in the list |
| `PageLists.SearchExactIff` | libmdbx/mdbx-internals.h:3844-3852 | the exact search and the membership test answer membership |
| `PageLists.SpanPosition` | libmdbx/mdbx-internals.h:3854-3862 | consecutive pages are at consecutive positions |
| `PageLists.ContainsSpanIff` | libmdbx/mdbx-internals.h:3854-3862 | the two-element test is true exactly when all pages of the span are in the list, if the search stays inside or the slot behind holds another value |
| `PageLists.ContainsSpanGuardIff` | libmdbx/mdbx-internals.h:3854-3862 | it is right for all spans exactly under that condition |
| `PageLists.SlotPastTheEndExample` | libmdbx/mdbx-internals.h:3854-3862 | an empty list whose slot past the end holds a page, which the test then finds |
| `PageLists.ScanSpan` | libmdbx/mdbx-internals.h:3868-3875 | the loop returns the length of the maximal run from the position on |
| `PageLists.MaximalRunIsUnique` | libmdbx/mdbx-internals.h:3868-3875 | there is only one such length |
| `PageLists.ScanFrom` | libmdbx/mdbx-internals.h:3868-3875 | stepping by the scan's results goes through the list |
| `PageLists.ScanAll` | libmdbx/mdbx-internals.h:3868-3875 | from the first page to the last |
| `PageLists.RunsSumToSize` | libmdbx/mdbx-internals.h:3868-3875 | the lengths of the runs sum to the size |
| `PageLists.StepsAreIsolatedRuns` | libmdbx/mdbx-internals.h:3868-3875 | each run found is maximal in both directions, so the runs are disjoint |
| `PageLists.RunAccepted` | libmdbx/mdbx-internals.h:3854-3875 | the span test accepts each run in full and rejects it extended by one page |
| `PageLists.PageList.SetSize` | libmdbx/mdbx-internals.h:3728-3731 | only the size changes, for any size; the result is a list exactly when the size is allocated |
| `PageLists.PageList.AppendPrereserved` | libmdbx/mdbx-internals.h:3783-3791 | the page is written behind the last one and the size counts it |
| `PageLists.AppendedIsListIff` | libmdbx/mdbx-internals.h:3783-3791 | the list stays descending exactly when the page is below the last one, and then holds one page more |
| `PowerOfTwo.AndIsBitwise` | libmdbx/mdbx-internals.h:3541-3541 | the recursive operator is the bitwise one |
| `PowerOfTwo.AndMask` | libmdbx/mdbx-internals.h:3539-3542 | clearing the low k bits subtracts the remainder by 2 to the k-th |
| `PowerOfTwo.IsPowerOf2Iff` | libmdbx/mdbx-internals.h:3537-3537 | the test accepts zero and the powers of two only |
| `PowerOfTwo.FloorIsRoundingDown` | libmdbx/mdbx-internals.h:3539-3542 | for a power of two the mask rounds down |
| `PowerOfTwo.FloorIsRoundingDownIff` | libmdbx/mdbx-internals.h:3539-3542 | it does so for all values only for powers of two |
| `PowerOfTwo.CeilIsRoundingUp` | libmdbx/mdbx-internals.h:3544-3546 | rounding up gives the least multiple not below the value, or 0 exactly when that does not fit in 64 bits |
| `PowerOfTwo.RoundUpIsLeast` | libmdbx/mdbx-internals.h:3544-3546 | no smaller multiple is enough |
| `ListSizes.SizeToBytesIsExact` | libmdbx/mdbx-internals.h:3748-3762 | no 64-bit operation wraps for any admitted size in any build |
| `ListSizes.SizeToBytesIsTight` | libmdbx/mdbx-internals.h:3748-3762 | bytes and overhead fill whole granules, hold all slots and waste less than one granule |
| `ListSizes.SizeRoundTrip` | libmdbx/mdbx-internals.h:3738-3762 | the size found for an allocation is at least the wanted one and less than a granule of pages more |
| `ListSizes.SizeRoundTripIsStable` | libmdbx/mdbx-internals.h:3738-3762 | that size asks for the same allocation |
| `ListSizes.AssertedRangeIff` | libmdbx/mdbx-internals.h:3740-3740 | for which sizes the asserted range is met |
| `ListSizes.AssertedRangeByDefault` | libmdbx/mdbx-internals.h:3740-3740 | the same as a single bound for a default 64-bit build |
| `WideIntegers.Carry` | libmdbx/mdbx-internals.h:3619-3620 | comparing the wrapped sum with an operand detects the carry |
| `WideIntegers.AddIsExact` | libmdbx/mdbx-internals.h:3614-3626 | the sum of the integers, less 2 to the 128th when that does not fit |
| `WideIntegers.AddIsModular` | libmdbx/mdbx-internals.h:3614-3626 | addition modulo 2 to the 128th |
| `WideIntegers.AddAssociates` | libmdbx/mdbx-internals.h:3614-3626 | addition is associative |
| `WideIntegers.AddCommutes` | libmdbx/mdbx-internals.h:3614-3626 | addition is commutative although only one operand is compared for the carry |
| `WideIntegers.AddHasInverses` | libmdbx/mdbx-internals.h:3614-3626 | the two's complement is the negative |
| `WideIntegers.MulIsExact` | libmdbx/mdbx.c:42244-42265 | the product from 32-bit halves is the product of the integers, for all 64-bit factors |
| `WideIntegers.PartialProductsAddUp` | libmdbx/mdbx.c:42255-42261 | no sum of partial products wraps, and the carries add up |
| `WideIntegers.MulCommutes` | libmdbx/mdbx-internals.h:3612-3612 | what the source asserts of its product |
| `WideIntegers.ComparisonsAgree` | libmdbx/mdbx-internals.h:3628-3667 | the three-way comparison is the order of the integers, and the three tests agree with it |
| `WideIntegers.LtIsOrder` | libmdbx/mdbx-internals.h:3589-3667 | the tests are the integers' order and equality, and the maximum is the greatest |
| `WideIntegers.SumIsMonotoneIff` | libmdbx/mdbx-internals.h:3614-3667 | a sum is below an operand exactly when it overflows |
| `WideIntegers.AddKeepsOrderIff` | libmdbx/mdbx-internals.h:3614-3667 | adding a number keeps the order of two others exactly when both sums fit or neither does |
| `ReaderRegistry.Registry.Draw` | mdbx/msgfunc.go:71-71 | the counter is incremented modulo 2 to the 32nd and is the handle |
| `ReaderRegistry.Registry.Register` | mdbx/msgfunc.go:76-84 | a free handle gets a new record with the callback; a taken one is refused and nothing changes |
| `ReaderRegistry.Registry.NewReaderFunc` | mdbx/msgfunc.go:70-74 | drawing and registering together |
| `ReaderRegistry.Registry.Deregister` | mdbx/msgfunc.go:86-90 | the handle's record is dropped and no other |
| `ReaderRegistry.Registry.Get` | mdbx/msgfunc.go:92-97 | the record of a registered handle, or nil |
| `ReaderRegistry.CallersAreIndependent` | mdbx/msgfunc.go:66-97 | at every point of every run a registered caller's handle leads to its own record with its own errors |
| `ReaderRegistry.RegisteredFindsItself` | mdbx/msgfunc.go:20-21 | a registered caller's lookup never gives nil and never another's record |
| `ReaderRegistry.OwnCallbackRuns` | mdbx/msgfunc.go:20-47 | the bridge runs the callback of the call it works for |
| `ReaderRegistry.AnswerIsOwn` | mdbx/reader.go:56-68 | a finished call answers with the last error of its own callback |
| `ReaderRegistry.NothingLeaks` | mdbx/msgfunc.go:76-90 | every entry of the table belongs to a live registration |
| `ReaderRegistry.TableIsLiveRegistrations` | mdbx/msgfunc.go:66-97 | a handle is in the table exactly while a registration with that number modulo 2 to the 32nd is live |
| `ReaderRegistry.RegisterPanicsIff` | mdbx/msgfunc.go:76-84 | registering panics exactly when another live registration has the handle, and replaces nothing |
| `ReaderRegistry.NoPanic` | mdbx/msgfunc.go:70-84 | no panic while fewer than 2 to the 32nd handles are drawn during any registration's life |
| `ReaderRegistry.WrapPanics` | mdbx/msgfunc.go:70-84 | a caller whose handle was drawn 2 to the 32nd before by a caller still registered panics |
| `ReaderRegistry.WrapPanicHappens` | mdbx/msgfunc.go:70-84 | there is such a run, so the bound is sharp |
| `CursorPool.Cursor.Open` | mdbx/cursor.go:112-128 | the checks in order, the C call and the two fields, as the specification says |
| `CursorPool.Cursor.Rebind` | mdbx/cursor.go:146-164 | Renew and Bind change the transaction only when the C call succeeds, although a failed call may have unbound the cursor |
| `CursorPool.Cursor.Unbind` | mdbx/cursor.go:170-177 | Unbind clears it only when the C call succeeds |
| `CursorPool.Cursor.Close` | mdbx/cursor.go:186-195 | an open cursor is closed and forgotten, a closed one left alone |
| `CursorPool.Pool.CursorFromPool` | mdbx/cursor.go:560-597 | any pooled cursor, or a new one |
| `CursorPool.Pool.CursorToPool` | mdbx/cursor.go:573-589 | an unbound cursor is pooled, one that cannot be unbound is closed, a closed one dropped |
| `CursorPool.HandlesStayOk` | mdbx/cursor.go:112-195 | over any run each handle is live or closed, closed once, and bound only while live and to a live transaction |
| `CursorPool.CursorsStayOk` | mdbx/cursor.go:112-195 | over any run a cursor's handle is live, and when bound its Go field names the transaction |
| `CursorPool.CursorsStaySeparate` | mdbx/cursor.go:112-195 | no two cursors hold the same handle |
| `CursorPool.PoolStaysClean` | mdbx/cursor.go:568-589 | every pooled cursor has a live handle, a nil transaction and no C binding |
| `CursorPool.NoUseAfterClose` | mdbx/cursor.go:186-195 | every handle passed to C is live |
| `CursorPool.ClosedAtMostOnce` | mdbx/cursor.go:186-195 | each handle is closed at most once, and is live until then |
| `CursorPool.BoundCursorNamesItsTxn` | mdbx/cursor.go:112-195 | a cursor bound in C names that transaction in Go, and it has not ended |
| `CursorPool.FromPoolIsLikeNew` | mdbx/cursor.go:566-571 | a cursor from the pool has a live handle and no binding on either side |
| `CursorPool.RecycledCursorWorks` | mdbx/cursor.go:566-589 | a cursor that goes through the pool keeps its handle and works for the transaction it is bound to next |
| `CursorPool.BrokenCursorIsClosed` | mdbx/cursor.go:581-587 | a cursor that cannot be unbound is closed once and not pooled |
| `CursorPool.LiveHandlesAreHeld` | mdbx/cursor.go:112-195 | every live handle is held by exactly one Go cursor |
| `CursorPool.EvictedHandlesLeak` | mdbx/cursor.go:571-572 | a cursor that the collector evicts keeps its handle live for ever |
| `CursorPool.RebindingAPooledCursor` | mdbx/cursor.go:573-589 | a caller that goes on using a cursor it pooled leaves a bound cursor in the pool |
| `Semver.AlphanumericIff` | libmdbx/conanfile.py:12-12 | the alphanumeric identifiers are the words of allowed characters that are not all digits |
| `Semver.AreIdentifiersIff` | libmdbx/conanfile.py:12-12 | cutting at dots recognises exactly the dotted lists |
| `Semver.ParseIff` | libmdbx/conanfile.py:11-13 | the parser answers with exactly the groups with which the expression matches |
| `Semver.ParseIsUnique` | libmdbx/conanfile.py:11-13 | no input matches in two ways, although prerelease text may contain hyphens |
| `Semver.PrintedIsText` | libmdbx/conanfile.py:15-28 | printing joins the groups with their separators, and the tests for empty groups never matter |
| `Semver.PrintParsed` | libmdbx/conanfile.py:15-28 | printing a parsed version gives the input without its leading 'v' and a newline at its end |
| `Semver.PrintParsedExactly` | libmdbx/conanfile.py:11-28 | without such a newline only the 'v' is lost |
| `Semver.ParsePrinted` | libmdbx/conanfile.py:11-28 | every version is parsed back from its printed form |
| `Semver.ParsePrintParse` | libmdbx/conanfile.py:11-28 | parsing, printing and parsing again changes nothing |

## Assumptions

- A character is one octet, `char` is signed (in `valstr`), and `isprint` accepts 0x20 to 0x7E, as in the C locale.
- Tables are kept apart: the main table is not dumped or loaded together with named tables, whose names are records of
  it, and those records are not modelled.
- A cursor walks every record of a table once; the order is not needed. `mdbx_cursor_put` adds the record, replacing the
  value unless the table is DUPSORT, and MDBX_NOOVERWRITE refuses a key that is present.
- The key buffer holds at least 9 characters and the value buffer at least 128; the loader uses the maximal key size
  plus one, and 4096.
- Opening a table does what `dbi_open` and `dbi_bind` do with `MDBX_CREATE` (`libmdbx/mdbx.c:17614-17684`): the flags
  must be well-formed, an empty table is created anew with them, another one must have them.
- Drawing a handle is atomic, and so is what the registry does under one holding of its lock; the return of a callback,
  which may write an error into the record looked up before, is a step of its own. Each call deregisters once, as
  `ReaderList` does with `defer`.
- Opening and unbinding a C cursor have no effect when they fail, while a failed binding may leave it unbound
  (`libmdbx/mdbx.c:5954-5968`); ending a transaction unbinds its cursors and closes none. Callers forget a cursor that
  they put into the pool, and must: `CursorPool.RebindingAPooledCursor`.

## Left out

- The engine: trees, pages, transactions and their errors, page reclaiming, the mmap limit check and everything else in
  `mdbx.c`; `mdbx_canary_put` does what `mdbx.h` says of it.
- Files.LoadExtends: promises nothing about the rows, flags and sequences of tables with -p, which empties those loaded.
- Files.LeftOverGoesToMain: shows what `HEADER=END` leads to, one keyword of those that may occur beyond the buffer.
- Messages, line numbers, `errno`, read errors, signals, running out of memory, and buffers of 2 gigabytes and more,
  whose length `fgets` takes as an `int`.
- The load loop with `-T`, `-a` with its comparators, and `-s`: only `readline` is modelled without a header.
- Rescue mode's ignored cursor errors in `mdbx_dump.c`, and the choice and order of the tables to dump.
- Files.LoadExtends: is about each table's own rows; the record that names another table in the main table is not one.
- The value that `mdbx_cursor_put` writes back into `data` on MDBX_KEYEXIST, which a later repeat marker would see, and
  the result MDBX_RESULT_TRUE of a checkpoint.
- LineReader.Chunk: states the contract of `fgets`, not its implementation.
- HeaderRestore.GeometryRestored: assumes limits that the loader accepts, because others are ignored line by line.
- PageLists.ScanSpan: reads the list as a sequence of its slots, since the scan changes nothing.
- Growing, merging, sorting and cutting of page lists.
- The 128-bit operations by the compiler's own type or instructions; only the forms on halves are modelled.
- Cursor operations other than opening, binding, closing and pooling, table handles of cursors, and
  `ReleaseAllCursors`, after which cursors must not be closed.
- `\d` on decimal digits beyond Latin-1 in version strings, and the callers of the version functions.
- The other tools, `duration.go`, `env.go`, error mapping and platform files.
