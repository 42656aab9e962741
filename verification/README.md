# Verified models of picolibc's stateful corners

This project models five components of picolibc in Dafny and proves what they
do on every input, every run of calls or every reachable state:

- **argz/envz vectors** (`libc/argz`): lists of strings stored flat, edited in
  place. `CStrings` holds the two directions between the list and the bytes,
  `CMemory` the memory primitives, `ArgzSearch`/`Argz`/`ArgzViews`/`ArgzSep` the
  argz operations, `EnvzSpec`/`Envz`/`EnvzStore`/`EnvzUnion`/`EnvzExact` the envz
  operations.
- **iconv** (`libc/iconv`): `Iconv` is the resumable loop over the descriptor,
  `IconvSpec` what one call and a run of calls mean, `IconvDrain` what a caller
  gets that offers its output space in pieces, `IconvReads` what a call reads and
  why it stops. The character sets are parameters: any decoder and encoder with a
  shift state.
- **Unicode class tables** (`libc/ctype`): `CtypeTable` is the table generator and
  the binary search that reads its output, `CaseConv` the case ranges, the two
  conversions and the class lookup that has to agree with them.
- **libdl** (`libdl/dl.c`): `DlHash` is the symbol hash (with `Bits` for the C
  operators), `DlSym` symbol lookup, `DlImage` segment loading,
  `DlWorld` the open/close life cycle as a state machine, `DlThread` the thread
  pointer over its runs and `DlLoader` the code of `dlopen` and `dlclose` with
  all its exits.
- **Command line** (`picocrt/crt0.h`): `Cmdline` is the in-place splitter.

Code that updates buffers, cursors or fields is modelled by methods and classes,
each proved against a function or predicate on values; the lemmas then say what
that function or predicate means. `dafny verify dfyconfig.toml` checks all of it.

## Where the code does less than one would expect

Some natural laws are false of the code. Each has an input on which it fails and
a condition under which, and only under which, it holds; for one, a merge with
override, the condition is exact only where no name is doubled.

- The `strsep` used by `argz_create_sep` yields no token for an empty remainder,
  so a trailing separator is lost (`ArgzSep.TrailingSeparatorIsLost`); and with
  NUL for a separator only the first entry of a join is read back
  (`ArgzSep.NulKeepsFirstOnly`). Joining the split gives the string back exactly
  when it does not end with the separator (`ArgzSep.SplitThenJoin`); splitting
  the join gives the bytes back exactly when the separator is not NUL or there is
  one entry, no entry holds the separator and the last entry is not empty
  (`ArgzSep.JoinThenSplit`).
- `argz_extract` never looks at byte 0: exactly when the first of two or more
  entries is empty, the second slot of argv is left unwritten
  (`ArgzViews.Extract`, `ArgzViews.SecondSlotUnwritten`).
- `argz_replace` tests a counter of type `unsigned`: exactly when the number of
  matches is a nonzero multiple of 2^32, nothing is replaced
  (`Argz.Vector.Replace`, `Argz.WrappedCount`).
- `argz_delete` at a byte inside an entry fuses it with the next one, and leaves
  the vector unterminated exactly when there is no next one (`Argz.DeleteAt`,
  `Argz.Unterminated`).
- `envz_entry`, `envz_get`, `envz_remove`, `envz_add` and `envz_merge` find a name
  anywhere in an entry, so "A" finds "BA=1" (`EnvzSpec.ImpostorFound`). The result
  is the entry of the name exactly when no such impostor comes first
  (`EnvzSpec.ScanIsLinearSearch`), and then exactly are add and remove map
  operations (`EnvzExact.AddIsMapUpdate`, `EnvzExact.RemoveIsMapRemoval`). A merge
  without override is a union exactly when no new name is hidden
  (`EnvzExact.KeepMergeIsUnion`, `EnvzExact.NameHidden`). A merge with override
  that doubles no name is a union exactly when every impostor it throws out comes
  back (`EnvzExact.OverrideMergeIsUnion`, `EnvzExact.DisplacedReturns`,
  `EnvzExact.NameDoubled`); and in any merge with override every turn sets its own
  name and nothing else exactly when none finds an impostor first
  (`EnvzExact.EveryTurnUpdates`).
- An empty name stands for the first entry of an envz store, whatever its name,
  and has no value (`EnvzSpec.EmptyNameFindsFirst`).
- The generated table reproduces the classification exactly under the condition
  of `CtypeTable.FaithfulExactly`: in short, classes at code 0 and, for the full
  table, at the last code; the table for a two-byte `wchar_t` lacks the last run
  unless it is empty (`CtypeTable.NothingAtZero`, `CtypeTable.NothingAtTheEnd`,
  `CtypeTable.OneLongRun`). For a code below the first entry the search may wrap
  its upper bound, exactly for the table sizes of `CtypeTable.UnderflowsInBands`;
  that is what a `wint_t` of 2^31 or more meets where `wchar_t` is signed
  (`CaseConv.SignedHighCodes`).
- `load_size + 0x1000` may wrap; the block is large enough exactly when it does
  not (`DlImage.BlockFits`, `DlImage.BlockTooSmall`). The end of a segment may
  wrap; the span covers all segments exactly when none does (`DlImage.SpanCovers`,
  `DlImage.SegmentWraps`).
- Closing libraries with thread-local storage in the order of opening leaves the
  thread pointer in a freed block (`DlThread.FirstInFirstOut`). It is the initial
  one exactly when, following each close back to its open, one arrives at the
  start of the run (`DlThread.RestoredExactly`); nesting is enough for that
  (`DlThread.NestedRestoresThreadPointer`) but not needed (`DlThread.NotOnlyNested`).
- The comment above `_buf_findstr` says the buffer pointer becomes NULL at the
  end; the code moves it to the end instead, and the model follows the code.

## Model

| member | source | states |
|---|---|---|
| `CStrings.EncodeDecode` | libc/argz/argz_next.c:13-31 | the flat bytes of any well-formed vector are exactly those of its decoded entries |
| `CStrings.DecodeEncode` | libc/argz/argz_add.c:13-30 | every list of NUL-free strings survives being laid out flat |
| `CStrings.EntryStartUnique` | libc/argz/argz_insert.c:27-31 | walking left to the byte after a NUL, or to 0, stops at the start of the entry one came from |
| `ArgzSearch.FindStr` | libc/argz/buf_findstr.c:16-41 | the cursor ends just past the leftmost match, or at the end when there is none, and never leaves the buffer; the empty string is found at the next terminator |
| `ArgzSearch.MatchInEntry` | libc/argz/buf_findstr.c:22-33 | no match of a C string straddles a terminator |
| `ArgzSearch.ReplaceEntries` | libc/argz/argz_replace.c:50-63 | leftmost non-overlapping replacement on the flat bytes is that replacement in every entry, and the occurrences add up |
| `ArgzSearch.ReplaceKeepsPieces` | libc/argz/argz_replace.c:50-63 | the leftmost non-overlapping occurrences cut a string into pieces, and the result has the same pieces with the replacement between them |
| `ArgzSearch.ReplaceDecoded` | libc/argz/argz_replace.c:31-73 | the same for any well-formed buffer, whose result is well formed again |
| `ArgzSearch.CountPass` | libc/argz/argz_replace.c:31-39 | the first pass yields the number of occurrences modulo 2^32 and the exact length of the result |
| `ArgzSearch.CopyPass` | libc/argz/argz_replace.c:45-63 | the second pass fills a block of that length with exactly the replaced bytes |
| `Argz.Vector.Add` | libc/argz/argz_add.c:13-30 | the entry list grows by the string; a null string changes nothing |
| `Argz.Vector.Insert` | libc/argz/argz_insert.c:15-44 | insertion before any byte of entry k, its terminator included, is list insertion at k; a null position appends (nothing for a null string), a position outside is EINVAL and changes nothing |
| `Argz.InsertInto` | libc/argz/argz_insert.c:27-41 | the reallocated, shifted and filled block is the old one with the entry's bytes at the start of entry k |
| `Argz.StartOfEntry` | libc/argz/argz_insert.c:27-31 | the backward walk ends at the start of the entry |
| `Argz.Vector.Delete` | libc/argz/argz_delete.c:13-36 | at the start of an entry, that entry and only it leaves the list; inside an entry its rest goes and the next entry joins on; the vector stays well formed if and only if it is not cut inside the last entry |
| `Argz.Unterminated` | libc/argz/argz_delete.c:20-25 | deleting at the second byte of the only entry "ab" leaves "a" without a terminator |
| `Argz.DeleteAt` | libc/argz/argz_delete.c:19-25 | the same on the bytes, for a deletion at any byte |
| `Argz.DeleteFrom` | libc/argz/argz_delete.c:19-28 | from any offset, the bytes up to and including the next terminator are cut out |
| `Argz.InsertEntry` | libc/argz/argz_insert.c:30-41 | inserting an entry's bytes at the offset of entry k inserts it at index k |
| `Argz.DeleteEntry` | libc/argz/argz_delete.c:19-25 | cutting the bytes of entry k removes index k |
| `Argz.InsertDelete` | libc/argz/argz_delete.c:19-25 | deleting at the place of an insertion restores the buffer byte for byte |
| `Argz.Vector.Replace` | libc/argz/argz_replace.c:15-83 | below 2^32 occurrences, every entry gets all of them replaced and the count is their number; beyond, the count is modulo 2^32, and where it is zero the vector stays as it was |
| `Argz.WrappedCount` | libc/argz/argz_replace.c:41-41 | a vector with 2^32 occurrences, which replacement would change |
| `ArgzViews.Count` | libc/argz/argz_count.c:11-22 | the number of NULs, which is the number of entries of a well-formed vector |
| `ArgzViews.Next` | libc/argz/argz_next.c:13-31 | from any byte of entry k to the start of entry k + 1, or null after the last; from null to the first |
| `ArgzViews.Walk` | libc/argz/argz_next.c:16-30 | iterating from null visits exactly the entry starts in order, as many as `argz_count` says |
| `ArgzViews.Extract` | libc/argz/argz_extract.c:11-27 | argv holds the entry starts and a null, except that slot 1 stays as it was when the first of two or more entries is empty |
| `ArgzViews.EmptyFirst` | libc/argz/argz_extract.c:18-25 | the bytes of the vector of "" and "a", whose second entry starts at byte 1 |
| `ArgzViews.SecondSlotUnwritten` | libc/argz/argz_extract.c:18-25 | on that vector the first slot and the null are filled and the second slot keeps what was in it |
| `ArgzViews.TerminatorOf` | libc/argz/argz_extract.c:19-24 | the NULs before a terminator number its entry, and the byte after it starts the next |
| `ArgzSep.TokensAreFields` | libc/string/strtok_r.c:41-84 | the tokens are the fields between separators, less an empty last one |
| `ArgzSep.JoinSplit` | libc/argz/argz_stringify.c:17-21 | joining the fields of any string gives the string back |
| `ArgzSep.SplitJoin` | libc/argz/argz_create_sep.c:39-59 | splitting a join into fields gives the list back if no entry holds the separator |
| `ArgzSep.JoinOfTokens` | libc/argz/argz_create_sep.c:28-62 | joining the tokens gives the string back if and only if it does not end with the separator, which is otherwise lost |
| `ArgzSep.TextOfJoin` | libc/argz/argz_stringify.c:17-21 | the C string in a joined block is the join, but only the first entry if the separator is NUL |
| `ArgzSep.TokensOfJoin` | libc/argz/argz_create_sep.c:28-62 | the tokens of that string are the list if and only if the separator is not NUL or there is one entry, no entry holds the separator and the last is not empty |
| `ArgzSep.NulKeepsFirstOnly` | libc/argz/argz_create_sep.c:33-34 | with NUL for a separator ["a", "b"] comes back as ["a"] |
| `ArgzSep.TrailingSeparatorIsLost` | libc/string/strtok_r.c:61-64 | the inputs "a:" and ["a", ""] do not come back |
| `ArgzSep.VectorOfTokens` | libc/argz/argz_create_sep.c:53-59 | the vector that is built decodes to the tokens |
| `ArgzSep.Stringify` | libc/argz/argz_stringify.c:11-22 | in place, the block becomes the join of its entries as one C string, and nothing behind it changes |
| `ArgzSep.StrSep` | libc/string/strtok_r.c:34-86 | one token is closed in place at the first separator and the cursor moves past it; an empty remainder is no token; no other byte changes |
| `ArgzSep.MeasureTokens` | libc/argz/argz_create_sep.c:36-43 | the first pass measures the exact vector length and number of tokens |
| `ArgzSep.CopyTokens` | libc/argz/argz_create_sep.c:47-59 | the second pass writes exactly the vector of the tokens |
| `ArgzSep.CreateSep` | libc/argz/argz_create_sep.c:14-63 | the result is the vector of the tokens; empty for a null or empty string |
| `ArgzSep.JoinThenSplit` | libc/argz/argz_stringify.c:11-22 | stringify and then create_sep give the bytes of the vector back if and only if the condition of `TokensOfJoin` holds |
| `ArgzSep.SplitThenJoin` | libc/argz/argz_create_sep.c:14-63 | create_sep and then stringify give a nonempty string back if and only if it does not end with the separator, which is otherwise cut off |
| `EnvzSpec.HitIsFlagged` | libc/argz/envz_entry.c:22-24 | the scan stops only after an occurrence of the name followed by '=' or the terminator |
| `EnvzSpec.NamedIsHit` | libc/argz/envz_entry.c:21-39 | an entry of the name is always found, right after its name |
| `EnvzSpec.FlaggedOnlyAtStartsIsHonest` | libc/argz/envz_entry.c:21-39 | if the name is so followed only at entry starts, no entry is taken for another |
| `EnvzSpec.ScanIsLinearSearch` | libc/argz/envz_entry.c:21-39 | the scan is linear search by name if and only if every impostor follows an entry of the name; it never misses a named entry |
| `EnvzSpec.ImpostorFound` | libc/argz/envz_entry.c:24-34 | looking up "A" finds "BA=1", and adding "A" then removes it |
| `EnvzSpec.EmptyNameFindsFirst` | libc/argz/envz_entry.c:21-34 | the empty name finds the first entry and has no value |
| `EnvzSpec.NamedMergeInBounds` | libc/argz/envz_merge.c:24-53 | a merge stays in the buffer if no name of the second store is empty |
| `EnvzSpec.NonemptyMergeInBounds` | libc/argz/envz_merge.c:24-53 | or if no entry of either store is the empty string |
| `EnvzSpec.GetAfterAdd` | libc/argz/envz_add.c:22-39 | what a get after an add returns, for every store: the added value, unless another entry the scan stops in is left |
| `EnvzSpec.GetAfterAddUnique` | libc/argz/envz_add.c:22-39 | with at most one entry the scan stops in, the added value comes back |
| `EnvzSpec.GetAfterAddHonest` | libc/argz/envz_get.c:21-34 | without impostors and with at most one entry of the name, the added value comes back |
| `Envz.FlatScan` | libc/argz/envz_entry.c:21-25 | the scan of the flat bytes stops in the first entry in which the scan of that entry alone would |
| `Envz.Entry` | libc/argz/envz_entry.c:15-40 | the start of the first entry the scan stops in, or null if there is none |
| `Envz.WalkBack` | libc/argz/envz_entry.c:27-32 | the walk back over the entry ends at its start |
| `Envz.Get` | libc/argz/envz_get.c:15-35 | a pointer to the value of that entry, or null if there is none or it has no value |
| `EnvzStore.Remove` | libc/argz/envz_remove.c:14-32 | that entry, and only it, leaves the store |
| `EnvzStore.Add` | libc/argz/envz_add.c:14-40 | the entry found under the name is replaced by name=value (or the bare name) at the end |
| `EnvzStore.MergeOne` | libc/argz/envz_merge.c:25-51 | one entry of the second store is kept out, appended or put in place of the one found |
| `EnvzStore.Merge` | libc/argz/envz_merge.c:15-54 | the entries of the second store are merged one after the other, in order |
| `EnvzUnion.MergePairsIsUnion` | libc/argz/envz_merge.c:24-53 | on name/value pairs with unique names, merging is map union and keeps names unique |
| `EnvzUnion.PairsOfMerged` | libc/argz/envz_merge.c:24-53 | without impostors, merging entries is merging their name/value pairs |
| `EnvzUnion.MergeIsUnion` | libc/argz/envz_merge.c:24-53 | the merged store has unique names and is the left-biased union, or with override the right-biased union in which the last duplicate wins |
| `EnvzExact.RemoveIsMapRemoval` | libc/argz/envz_remove.c:19-31 | with unique names, removing takes exactly that name out of the map if and only if the scan finds no impostor first |
| `EnvzExact.AddIsMapUpdate` | libc/argz/envz_add.c:22-39 | with unique names, adding updates exactly that name in the map if and only if the scan finds no impostor first |
| `EnvzExact.KeepIsUnion` | libc/argz/envz_merge.c:25-36 | without override, one entry is merged as in a left-biased union if and only if no impostor hides that its name is new |
| `EnvzExact.KeepMergeIsUnion` | libc/argz/envz_merge.c:24-36 | without override, a whole merge is the left-biased union if and only if no entry of the target, and no fresh entry before it, is found under the name of a fresh entry of the second store |
| `EnvzExact.OverrideMergeIsUnion` | libc/argz/envz_merge.c:37-51 | with override and unique names, where no turn doubles a name, a whole merge is the right-biased union if and only if the name of every impostor thrown out occurs later in the second store |
| `EnvzExact.EveryTurnUpdates` | libc/argz/envz_merge.c:37-51 | with override and unique names, every turn sets its own name in the map and nothing else if and only if no turn finds an impostor first |
| `EnvzExact.NameHidden` | libc/argz/envz_merge.c:33-35 | merging "A=2" into "BA=1" without override adds nothing |
| `EnvzExact.NameDoubled` | libc/argz/envz_merge.c:49-49 | merging "A=3" into "BA=1", "A=2" with override leaves "A=2", "A=3" |
| `EnvzExact.DisplacedReturns` | libc/argz/envz_merge.c:49-49 | merging "A=2", "BA=3" into "BA=1" with override gives the right-biased union although an impostor is found first |
| `EnvzUnion.LookupReadsMap` | libc/argz/envz_get.c:21-34 | without impostors a get reads that map |
| `IconvSpec.CallFollows` | libc/iconv/iconv.c:61-139 | a bounded call hands out a prefix of the characters of the unbounded conversion, and that conversion continues from where the call stopped |
| `IconvSpec.CallConserves` | libc/iconv/iconv.c:61-139 | bytes written and staged are the bytes staged before and the encodings made, within the space; with any space, E2BIG exactly when bytes stay staged; those are one whole encoding |
| `IconvSpec.RunConserves` | libc/iconv/iconv.c:61-139 | over every run of calls with any inputs and output sizes, all output followed by the staged bytes is the concatenation of all encodings made |
| `IconvSpec.CallThreads` | libc/iconv/iconv.c:103-123 | from the shift state a call found, its emissions are one after the other the encodings of their characters, or in translit mode of '?' for an unencodable one, and lead to the state it left (up to the rejected character after an illegal sequence) |
| `IconvSpec.RunEncodes` | libc/iconv/iconv.c:103-123 | so it is for each call of every run; and over a run without illegal sequences all emissions are encodings made one after the other from the first state to the last |
| `IconvDrain.CallProgress` | libc/iconv/iconv.c:61-133 | with MB_LEN_MAX bytes of room a call finishes, consumes input or clears the staged bytes |
| `IconvDrain.DrainGetsAll` | libc/iconv/iconv.c:61-133 | a caller offering at least MB_LEN_MAX bytes each time ends and has collected the staged bytes and the whole conversion |
| `IconvDrain.ChunkingIrrelevant` | libc/iconv/iconv.c:61-133 | those are the bytes one call with enough room writes |
| `IconvDrain.FeedFollows` | libc/iconv/iconv.c:61-139 | calls with any output sizes, zero included, each resuming with the input left over, together conserve bytes and stay on the unbounded conversion |
| `IconvDrain.FeedIsPrefix` | libc/iconv/iconv.c:61-139 | at every moment the output is a prefix of that of the unbounded conversion |
| `IconvReads.CallReads` | libc/iconv/iconv.c:76-133 | from the shift states and the input of a call, its emissions are decoded and encoded one after the other; then it stays where it is, or swallows an incomplete character, or stops at an invalid one, or takes one without encoding |
| `IconvReads.CallCuts` | libc/iconv/iconv.c:77-102 | the same by index: positions and decoder states between which each emission is decoded by `in_mbtowc` |
| `IconvReads.RunReads` | libc/iconv/iconv.c:76-133 | so it is for every call of every run |
| `IconvReads.FeedReads` | libc/iconv/iconv.c:76-133 | calls that each resume with the input left over read like one call, whatever the output sizes |
| `IconvReads.CallFills` | libc/iconv/iconv.c:61-68 | a call decodes only while there is room, stages only what does not fit, and otherwise goes on until input or room is used up |
| `IconvReads.CallExplained` | libc/iconv/iconv.c:61-139 | all of this together with conservation, for every call |
| `IconvSpec.CountsInexact` | libc/iconv/iconv.c:120-120 | the inexact count is the number of characters replaced by '?' |
| `Iconv.Descriptor.constructor` | libc/iconv/iconv_open.c:81-88 | nothing is staged and both shift states are initial |
| `Iconv.Descriptor.EncodeChar` | libc/iconv/iconv.c:108-123 | encodes, and in translit mode falls back to '?', carrying the shift state through both attempts |
| `Iconv.Descriptor.NextChar` | libc/iconv/iconv.c:77-123 | one character is decoded and encoded; a NUL or an incomplete character takes the rest of the input |
| `Iconv.Descriptor.FlushTurn` | libc/iconv/iconv.c:62-75 | staged bytes go out whole before anything else, or the call ends for lack of room |
| `Iconv.Descriptor.CharTurn` | libc/iconv/iconv.c:76-129 | writing a character directly or through the staging buffer makes no difference to what the call achieves |
| `Iconv.Descriptor.Convert` | libc/iconv/iconv.c:38-144 | buffers, cursors, descriptor and return value after a call are those of the specified call, which decodes, encodes, fills the room and stops as `IconvReads.Explains` says; E2BIG exactly when there was room and bytes stay staged, EILSEQ exactly on an illegal sequence, else the number of inexact characters; no byte outside the space used changes |
| `CtypeTable.Search` | libc/ctype/ctype_table.c:56-82 | the entry whose run holds the code, without reading outside the table; below the first entry, entry 0 or a wrapped bound, depending on the table size only |
| `CtypeTable.UnderflowsInBands` | libc/ctype/ctype_table.c:70-73 | below the first entry, the bound wraps if and only if the last index lies between 3 * 2^k - 2 and 4 * 2^k - 3 for some k |
| `CtypeTable.CoversUnique` | libc/ctype/ctype_table.c:70-80 | in an ascending table that entry is the last one not above the code |
| `CtypeTable.ClosedTable` | libc/ctype/mkctype.py:372-374 | when entries that describe the codes below the limit, closed by a "none" entry, reproduce the classification |
| `CtypeTable.PendingRunLost` | libc/ctype/mkctype.py:358-361 | a nonempty run still pending when the two-byte table is closed is lost |
| `CtypeTable.LastRunLost` | libc/ctype/mkctype.py:372-374 | with an empty last run, the codes after the last written run keep its class |
| `CtypeTable.EndsMatter` | libc/ctype/mkctype.py:347-374 | three classifications, one without a class at code 0, one without a class at the last code and one of a single run, that every table exact for them gets wrong (the last in the two-byte table only) |
| `CtypeTable.NothingAtZero` | libc/ctype/mkctype.py:347-374 | the full table generated from the first of them does not reproduce it |
| `CtypeTable.NothingAtTheEnd` | libc/ctype/mkctype.py:364-374 | nor does the one generated from the second |
| `CtypeTable.OneLongRun` | libc/ctype/mkctype.py:350-362 | of the tables generated from the third, the full one reproduces it and the two-byte one does not |
| `CtypeTable.MaskHas` | libc/ctype/local.h:45-59 | a mask has the bit of a class exactly when the class is listed |
| `CtypeTable.Generator.DumpResult` | libc/ctype/mkctype.py:297-304 | the run and the gap before it extend the description to the end of the run; an empty run writes nothing |
| `CtypeTable.Generator.Visit` | libc/ctype/mkctype.py:350-356 | one code more is accounted for by the written entries and the pending run |
| `CtypeTable.Generator.Finish` | libc/ctype/mkctype.py:372-374 | the full table is ascending and reproduces the classification under exactly the stated condition |
| `CtypeTable.Generator.DumpTable` | libc/ctype/mkctype.py:306-375 | both tables are ascending and each reproduces the classification, and gives none above its limit, under exactly the stated condition; with classes at both ends the full table starts at 0 |
| `CaseConv.CaseLookup` | libc/ctype/caseconv.c:21-43 | the one range of the table that holds the code, or none; nothing above ASCII in the C locale; the bounds never wrap |
| `CaseConv.RangeUnique` | libc/ctype/caseconv.c:33-41 | in an ordered table at most one range holds a code |
| `CaseConv.AlternatingPairs` | libc/ctype/towlower_l.c:22-34 | in a TO1 range from a capital to a small letter, capital and small letter map onto each other and both conversions are idempotent |
| `CaseConv.ConversionRule` | libc/ctype/local.h:76-91 | where a code of a range goes in each mode, in 32-bit arithmetic, by the index of the range and in every locale in which it counts |
| `CaseConv.NoConversion` | libc/ctype/caseconv.c:28-32 | a code in no range, or outside ASCII in the C locale, stays |
| `CaseConv.PairedRanges` | libc/ctype/towupper_l.c:14-39 | a TOLO range and the TOUP range at its distance map onto each other, both ways |
| `CaseConv.Resolve` | libc/ctype/ctype_table.c:87-119 | the upper and lower bits added are those of the range's mode and the code's parity |
| `CaseConv.ResolveCase` | libc/ctype/ctype_table.c:84-121 | they are added to the table class exactly where the mask asks for them and the class has CLASS_case |
| `CaseConv.ResolvedReports` | libc/ctype/ctype_table.c:84-121 | class by class, what is reported: asked for, and in the table class, or upper or lower of a code with case that the other conversion changes |
| `CaseConv.FindCategory` | libc/ctype/ctype_table.c:70-82 | binary search gives the category linear search gives |
| `CaseConv.TableLookup` | libc/ctype/ctype_table.c:53-122 | none for WEOF and above ASCII in the C locale; else, for the entry that covers the code, each class is reported exactly when it is asked for and the code has it (from the table or through its case) |
| `CaseConv.FaithfulLookup` | libc/ctype/ctype_table.c:53-122 | on a table that reproduces a classification, every code gets its own classes, case resolved, and none above the limit |
| `CaseConv.GenerateAndLookup` | libc/ctype/mkctype.py:347-375 | on the table generated from any classification with classes at both ends, each class is reported exactly when it is asked for and listed for the code, or is upper or lower of a code listed with case that the other conversion changes; none above the limit |
| `CaseConv.ClassAgreesWithConversion` | libc/ctype/ctype_table.c:85-121 | where the table says only "has case", upper is reported exactly when `towlower_l` changes the code and lower exactly when `towupper_l` does |
| `CaseConv.SignedHighCodes` | libc/ctype/ctype_table.c:64-82 | with a signed `wchar_t`, codes from 2^31 on get the class of entry 0 or a read outside the table, depending on the table size only |
| `DlHash.HashValue` | libdl/dl.c:92-97 | one more character gives 16 * h + c modulo 2^32, its part below 2^28 with its top four bits xored into bits 4 to 7 |
| `DlHash.ShortHash` | libdl/dl.c:88-99 | an ASCII name of at most six characters hashes to its characters as digits in base 16 |
| `DlHash.KnownHashes` | libdl/dl.c:88-99 | "printf" hashes to 0x077905a6 and "syscall" to 0x0b09985c |
| `DlHash.HashOf` | libdl/dl.c:88-99 | the hash stays below 2^28 for names of every length |
| `DlHash.FoldTop` | libdl/dl.c:94-96 | mask, shift, xor and clearing with the C operators bring the top four bits down and clear them |
| `DlHash.ElfHash` | libdl/dl.c:88-99 | the loop computes that hash, in 32 bits |
| `DlSym.NameIsCString` | libdl/dl.c:399-399 | a symbol's name is what stands at its offset up to the next NUL |
| `DlSym.ExampleIsWellFormed` | libdl/dl.c:390-395 | a table of two buckets and three symbols that is well formed |
| `DlSym.Walk` | libdl/dl.c:394-404 | for every well-formed hash table the chain walk ends and finds a definition exactly when a linear scan would |
| `DlSym.Dlsym` | libdl/dl.c:383-409 | null without handle, name or tables; otherwise the biased value of a defined symbol of that name exactly when there is one |
| `DlImage.Span` | libdl/dl.c:183-204 | the least start and the greatest end, in 32 bits, of the PT_LOAD segments, or the refusal and exactly when |
| `DlImage.SegmentWraps` | libdl/dl.c:193-195 | a header whose end wraps below its start |
| `DlImage.SpanCovers` | libdl/dl.c:193-195 | the span covers every segment if and only if no segment end wraps |
| `DlImage.SoundIsNoticed` | libdl/dl.c:200-204 | a sound PT_LOAD header with memory is never refused |
| `DlImage.SegmentBytes` | libdl/dl.c:219-228 | with disjoint segments, each byte is its file byte, zero past the file part, and zero in gaps |
| `DlImage.BlockFits` | libdl/dl.c:207-216 | the aligned image fits the block if and only if the block size does not wrap |
| `DlImage.BlockTooSmall` | libdl/dl.c:207-208 | a header whose block size wraps to zero |
| `DlImage.LoadImage` | libdl/dl.c:207-228 | the image is page aligned, holds the byte of every address of the span, and nothing outside it changes |
| `DlImage.BiasAddresses` | libdl/dl.c:216-217 | the bias plus an address, modulo the word size, is the place of that address in the image |
| `DlImage.LoadSegments` | libdl/dl.c:183-228 | from the headers to the bytes: the refusal and exactly when; otherwise, at any block address with room, `load_bias` plus any address of a segment addresses its file byte or, past the file part, zero, and every other address of the span zero |
| `DlImage.TlsBlock` | libdl/dl.c:253-271 | the block is the initialised bytes out of the image followed by zeros |
| `DlImage.TlsIsInitialised` | libdl/dl.c:249-272 | those image bytes are the file contents of the PT_TLS segment |
| `DlImage.LoadTls` | libdl/dl.c:249-272 | the first PT_TLS header decides; its block is that segment's file contents followed by zeros |
| `DlWorld.StepKeepsTidy` | libdl/dl.c:105-443 | every call keeps: the heap is the initial one plus the blocks of open handles, each owned once, and no descriptor stays open |
| `DlWorld.OpenRunsConstructors` | libdl/dl.c:365-373 | a successful open runs the non-null entries of the library's init array, by index in increasing order, and nothing else |
| `DlWorld.CloseRunsDestructors` | libdl/dl.c:423-431 | a close runs the non-null entries of the handle's fini array, by index in decreasing order, and nothing else |
| `DlThread.CloseRunsFini` | libdl/dl.c:423-431 | over every run that is the fini array of the library the handle was last opened for |
| `DlWorld.RunKeepsTidy` | libdl/dl.c:105-443 | so does every run |
| `DlWorld.AllClosedNothingLeft` | libdl/dl.c:415-443 | when all handles are closed, the heap and the descriptors are the initial ones |
| `DlWorld.BlockCount` | libdl/dl.c:418-442 | an open handle owns two blocks, or three with thread-local storage |
| `DlThread.PointerAtOrigin` | libdl/dl.c:358-363 | over every run the thread pointer is the one at its origin, found by following closes back to their opens on the calls alone |
| `DlThread.LastCloseDecides` | libdl/dl.c:433-439 | after a close that is the last call to move it, the thread pointer is what it was before that library was opened |
| `DlThread.RestoredExactly` | libdl/dl.c:433-439 | after any calls it is the initial one if and only if its origin is the start of the run |
| `DlThread.LiveIsApart` | libdl/dl.c:253-254 | no library of a run gets the block the initial pointer points at, if that is in use |
| `DlThread.NestedOrigin` | libdl/dl.c:358-363 | in nested runs the origin is the top of the stack of open libraries, and the pointer each saved is that of the one below |
| `DlThread.NestedRestoresThreadPointer` | libdl/dl.c:433-439 | when the nested libraries are closed, the thread pointer is the initial one |
| `DlThread.NotOnlyNested` | libdl/dl.c:433-439 | a run that is not nested, closing second, third, first, and restores it |
| `DlThread.FirstInFirstOut` | libdl/dl.c:433-439 | closing in the order of opening leaves the thread pointer in a freed block |
| `DlLoader.Process.ReadFile` | libdl/dl.c:113-180 | a block is kept exactly when no step fails; whatever fails, no descriptor stays open |
| `DlLoader.Process.Build` | libdl/dl.c:183-356 | a handle exactly when no step fails, with two or three new blocks kept besides the file's; else all blocks are given back, each once |
| `DlLoader.Process.RunInit` | libdl/dl.c:365-373 | the non-null constructors run in array order |
| `DlLoader.Process.Dlopen` | libdl/dl.c:105-377 | a handle exactly when none of the steps fails, and then a step of the state machine; a null result changes nothing |
| `DlLoader.Process.RunFini` | libdl/dl.c:423-431 | the non-null destructors run in reverse array order |
| `DlLoader.Process.Dlclose` | libdl/dl.c:415-443 | a null handle changes nothing; another is a step of the state machine |
| `DlLoader.Process.ServeOne` | libdl/dl.c:105-443 | one request is a step of the state machine: an open exactly when none of its steps fails, a close exactly when the handle is open |
| `DlLoader.Process.Serve` | libdl/dl.c:105-443 | any sequence of requests, whatever fails, is a run of one such step for each: the process stays tidy, with all closed the heap is as before, and the thread pointer is the initial one if and only if its origin is the start |
| `Cmdline.ArgumentsAreFields` | picocrt/crt0.h:144-153 | the arguments are the nonempty fields between spaces, preceded by an empty one if the line starts with a space |
| `Cmdline.FieldsAreSplit` | picocrt/crt0.h:146-150 | the texts of the fields are those of the split on spaces |
| `Cmdline.TakeWord` | picocrt/crt0.h:146-152 | one argument is terminated in place and the run of spaces after it skipped |
| `Cmdline.FillArgv` | picocrt/crt0.h:142-153 | argv points at the arguments in order, at most 63, each terminated in its old place |
| `Cmdline.SplitArguments` | picocrt/crt0.h:128-157 | that with argc in bounds and a null at argv[argc]; without a command line the program name |

## Left out

- Iconv.Descriptor.Convert: only the modes default and translit; in ignore and discard the code goes on with a stale character or a result of -1, so there is no conservation law to state.
- Iconv.Descriptor.Convert: the descriptor `(iconv_t)-1` is refused before anything else; a null `outbuf` is not handled by the code and not modelled; `inexact_count` does not wrap.
- Iconv.Descriptor.Convert: an encoder writes only the bytes it returns; one that uses more of its MB_LEN_MAX bytes as scratch would touch more of the output buffer.
- The character-set decoders and encoders, the mode names of `iconv_open`, and the branch without multibyte support.
- Argz.Vector.Replace: the search string is not empty; an empty one makes `_buf_findstr` stand still at a NUL, so the loop does not end.
- EnvzStore.Merge: with an empty name and an empty first entry `envz_entry` reads before the buffer; that case is excluded, here and in `Envz.Entry`, `EnvzStore.Remove`, `EnvzStore.Add` and `EnvzStore.MergeOne`.
- Argz.Vector.Insert: an entry length beyond `int` is not modelled; the same holds for `argz_delete`, `envz_add` and the token count of `argz_create_sep`.
- Out-of-memory paths of argz and envz, and what `realloc` to size zero returns; a block is a value, so aliases into it that a caller keeps are not modelled.
- EnvzExact.OverrideMergeIsUnion: not stated for merges that double a name, where a later impostor may or may not remove the stale entry again; without override `EnvzExact.KeepMergeIsUnion` leaves nothing out.
- `envz_strip`: it steps past the entry that slid into place, so it is not the filter one would specify.
- `argz_create`, `argz_append`, `argz_add_sep`: concatenations that add only easy members.
- ArgzSep.StrSep: the inner loop over a one-character delimiter string is a comparison; `sep` is already a `char`.
- The data in `ctype_table.h`, `ctype_class.h` and `caseconv.t`, the parsing of the Unicode files and the `is_*` predicates of `mkctype.py`: the classification and the tables are arbitrary.
- CaseConv.TableLookup: `wint_t` and `wchar_t` have 32 bits; the lookup without multibyte support is not modelled.
- The single-byte `is*` and `to*` functions.
- DlImage.LoadImage: segments outside the file, larger in the file than in memory or wrapping are excluded, since the code then copies outside its buffers; `size_t` has 32 bits. The program headers are read as records, not parsed from bytes.
- DlImage.LoadTls: PT_TLS segments larger in the file than in memory, or in no PT_LOAD segment, are excluded for the same reason.
- DlSym.Dlsym: malformed hash, symbol or string tables are excluded; the code bounds only the symbol index.
- DlLoader.Process.Dlopen: which of reading, validation, allocation and relocation fail is an input; the parsing of PT_DYNAMIC, the relocations themselves, error strings and `dladdr` are not modelled. A constructor or destructor that itself opens or closes libraries is not modelled.
- The setup and exit code around the splitter in `picocrt/crt0.h`.
