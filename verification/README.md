# Proved models of the library and tool cores

Seven cores of a C code base of small Unix-like tools, each modelled after its source and proved against a
specification of its own.

- **Regular expressions** (`BreLanguage`, `BreCaptures`, `BreMatcher`, `BreWritten`, `BreSubstitute`). The matcher of basic
  regular expressions is a greedy loop that backs off, called recursively. The language of a pattern is defined without
  either, and the matcher is proved to return the leftmost start and the longest match there; for patterns printed from their
  pieces this is said in terms of what the pieces mean.
- **Flash image** (`Flash`). Two slots, each written as a prefix of sectors when power fails. Over every run of changes,
  flushes, crashes and mounts, a mount recovers the last flush that reported success or one attempted since.
- **FAT** (`FatChains`, `FatTree`, `FatContents`, `FatFiles`, `FatRoundTrips`, `FlashLayout`). The FAT is a set of disjoint chains; files are
  byte sequences; read, write, create, close and unlink refine operations on those sequences and on the entries of the
  directories. Path lookup finds an entry exactly under a condition that no regular file meets under its own path. The layout
  on the flash is read back exactly, so that recovery is recovery of the file system.
- **Argument scanner** (`GetoptSpec`, `GetoptReports`, `GetoptExchange`, `GetoptScanner`, `GetoptDeclared`). A state machine
  over many calls that reports exactly what the argument vector denotes, permutes it in place and leaves its stable partition;
  for printed option strings and vectors this is said in terms of the declarations and words they were printed from.
- **Line editor** (`EdSpec`, `EdBuffer`). Lines have an identity; 26 marks follow their lines through every edit.
- **Encodings** (`Chgenc`, `ChgencForms`). Ten encodings, inverse on Unicode scalar values, with the exact condition for a round trip.
- **Digest and archive** (`WordBits`, `Sha256`, `Sha256Constants`, `Sha256Example`, `SmoltarFormat`, `Smoltar`, `SmoltarDamage`,
  `SmoltarCut`). Streaming SHA-256 against the one-shot definition, with its constants and bit functions tied to the standard,
  and an archive writer and reader that are inverse, with exactly what becomes of archives that are damaged or cut.

A module named after a structure of the source holds its operations in imperative form, proved against functions; the
lemmas about those functions are the properties. `dafny verify dfyconfig.toml` checks everything.

Conventions: a C string is a sequence without NUL; a return code is a datatype or an integer as in the source; I/O, the
clock, `fwrite` outcomes and the POSIXLY_CORRECT setting are parameters; allocation does not fail.

Where the code and its comments or documentation differ, the model follows the code:

- `src/smoltar/smoltar.c:191` announces six checksum digits, a NUL and a space; seven digits and a space are written.
- `src/ed/ed.c:2114-2139` takes the undo snapshot again inside `c`, so undoing a change goes back to the buffer after its
  deletion (`EdBuffer.Editor.ChangeRange`).
- `fat16/vfs.c:304-330` tests the access mode with a mask that either bit satisfies, so both accesses are always granted
  (`FatFiles.Fat16.DecodeMode`).
- `fat16/vfs.c:273-297` descends through all components, the last one included, before it looks for the last one's name. A
  regular file is so never found under its own path: it cannot be opened again or unlinked, and its size never reaches its
  entry, so that what was written is lost when it is closed (`FatTree.FindEntryExactly`, `FatFiles.ExistingFileCannotBeOpened`,
  `FatFiles.SizeIsNotStored`, `FatRoundTrips.CreateWriteCloseOpen`). What is found is a file of the same name inside the directory
  that the path names (`FatFiles.OnlyNamesakesAreFound`).
- `fat16/vfs.c:165-176` falls back to the other slot without looking at its magic (`Flash.LoadsExactly`), and a mount that finds
  nothing detaches the flash, so that every later flush reports success and writes nothing (`Flash.FreshFlashIsNeverWritten`).
- `src/smoltar/smoltar.c:424-470` ends successfully at a header cut short and at a name whose first byte is 0
  (`SmoltarCut.CutArchiveExtracts`, `SmoltarDamage.DamagedArchive`); the stored digest is used to skip files, never to check
  what was extracted (`SmoltarCut.ContentsAreNotChecked`).
- `level1/chgenc.c:63-73` skips a byte order mark for the variants without one as well, so a leading U+FEFF is lost there
  (`Chgenc.RoundTripExactly`).

## Model

| member | source | states |
|---|---|---|
| BreLanguage.CrossingPaths | src/lib/bre.c:213-259 | A derivation of an outer slice and one of an inner slice splice into a derivation of the inner start and the outer end: backing off one occurrence at a time never gives up a longer match. |
| BreLanguage.GreedyIsLongest | src/lib/bre.c:213-259 | The longest match of the rest at the last repetition count that leaves a match is the longest match of the whole, although the code takes the first success of its back-off loop. |
| BreLanguage.NothingLeft | src/lib/bre.c:238-258 | When every admitted count has been tried in vain, the language holds nothing at this start: `BRE_NOMATCH` is complete. |
| BreLanguage.CapIsInvisible | src/lib/bre.c:218 | Where no unbounded item meets a run of more than 10000 characters, the cap does not change the language, for any pattern and slice. |
| BreLanguage.ShortTextFitsCap | src/lib/bre.c:218 | Every text of at most 10000 characters satisfies that condition. |
| BreLanguage.CapIsExactForOneStar | src/lib/bre.c:218 | For one unbounded atom the capped and the declared language agree on all slices if and only if the runs fit the cap. |
| BreLanguage.CapCutsLongRun | src/lib/bre.c:218 | The input on which the cap shows: `a*` on 10001 letters has the whole text as its longest match, the capped pattern only 10000. |
| BreLanguage.IntervalReadsWritten | src/lib/bre.c:82-139 | Every interval `{n}`, `{n,}` or `{n,m}` with bounds up to 255, written out in digits, is read back with exactly its bounds and its end. |
| BreLanguage.IntervalWasWritten | src/lib/bre.c:82-139 | The converse: whatever is read as an interval is the written form of its bounds, digits taken at their decimal value. |
| BreLanguage.WrongBoundsAreRefused | src/lib/bre.c:119-135 | An interval with both bounds is refused exactly when the first exceeds the second or the second exceeds 255, in numbers written out. |
| BreWritten.PatternReads | src/lib/bre.c:425-531 | A pattern printed from its pieces (characters, dot, escapes, brackets; each once, with a star, a plus or an interval; an optional `^` and `$`) is parsed into exactly these pieces, or is malformed exactly where it was written so. |
| BreWritten.WrittenMeans | src/lib/bre.c:425-531 | What a written pattern matches is what its pieces mean, defined without the parser: a star is any number, a plus at least one, an interval a number between its bounds, a dot any character, a bracket the characters and ranges listed or all others, `$` the end of the text. |
| BreWritten.BestOf | src/lib/bre.c:572-635 | Leftmost-longest and no match, said of the pieces, are what the entry point promises of the pattern. |
| BreWritten.MatchWritten | src/lib/bre.c:572-635 | Printing a pattern and matching it finds the leftmost and there the longest slice that the pieces mean, for every text without a run of more than 10000 characters; no match exactly where they mean none; an error exactly where the part in front of a malformed place means something. |
| BreMatcher.ParseBreRepetition | src/lib/bre.c:82-139 | The loops of the parser compute the declared quantifier: bounds and next position, or the error case, for digit strings whose value fits an `int`. |
| BreMatcher.ParseQuantifier | src/lib/bre.c:141-157 | `*`, `\+`, an interval or nothing, with the bounds and the position behind it, and errors reported as errors. |
| BreLanguage.GroupFreeIsUnquantified | src/lib/bre.c:425-531 | A pattern without a group meets what the matcher asks of groups, whatever its brackets and escapes contain: the condition on quantified groups excludes no group-free pattern. |
| BreMatcher.FindClassEndSimple | src/lib/bre.c:414-423 | Finds the position just past the closing bracket, and -1 exactly when there is none. |
| BreMatcher.InCharClass | src/lib/bre.c:42-78 | Decides membership in exactly the ranges the bracket body declares (negated or not), and stops where `find_class_end_simple` stops. |
| BreMatcher.AtomOnce | src/lib/bre.c:162-209 | Accepts one character exactly when the atom does; an unescaped `*`, `^` or `$` in the place of an atom accepts nothing. |
| BreMatcher.TakeAll | src/lib/bre.c:222-236 | The greedy loop takes the longest run the atom accepts, cut off only at the upper bound. |
| BreMatcher.MatchRepeated | src/lib/bre.c:213-259 | Greedy loop and back-off loop together: success is the longest match of the item and the rest, failure means there is none, and an error comes exactly when the item with what can be read of a malformed rest has a match. |
| BreMatcher.MatchHere | src/lib/bre.c:425-531 | The recursive matcher decides the language at a position: `BRE_OK` with the longest match, `BRE_NOMATCH` exactly without one, never `BRE_ERROR` on a well-formed group-free pattern; on a malformed one `BRE_ERROR` exactly when the part in front of the malformed place has a match here; terminates on the pattern that is left. |
| BreMatcher.MatchGroupWithoutQuantifier | src/lib/bre.c:282-355 | The group and what follows it: terminates, and the match and every capture lie inside the text. |
| BreMatcher.MatchGroup | src/lib/bre.c:391-411 | The same bounds for a group that the matcher meets with no quantifier behind it. |
| BreMatcher.BreMatchPattern | src/lib/bre.c:572-635 | The public entry point: leftmost start, longest match there (section 9.1 of the Base Definitions of IEEE Std 1003.1), no match exactly when no allowed start has one; on a malformed pattern an error exactly when the part in front of the malformed place matches at some allowed start, and otherwise no match; captures inside the text and sorted by start; start -1 and length 0 on failure. |
| BreMatcher.UncappedOutcome | src/lib/bre.c:218 | Carries leftmost-longest and no-match from the capped language to the declared one where runs fit the cap. |
| BreCaptures.BreMatch.SortGroupsByStart | src/lib/bre.c:537-569 | The insertion sort in place: ordered by start with unset captures last, stable, nothing lost. |
| BreCaptures.BreMatch.InsertGroup | src/lib/bre.c:537-569 | One round: the next capture goes to its place, and captures with equal keys keep their order. |
| BreCaptures.SpliceIsStable | src/lib/bre.c:537-569 | Moving a capture in front of a block of larger keys keeps the order among equal keys. |
| BreCaptures.SortedResultIsUnique | src/lib/bre.c:537-569 | Order and stability determine the result: there is only one sequence the sort may leave. |
| BreSubstitute.MeasureReplacement | src/lib/bre.c:660-674 | The first pass computes exactly the length of the expanded replacement. |
| BreSubstitute.WriteReplacement | src/lib/bre.c:681-700 | The second pass writes exactly the expansion, of exactly the measured length. |
| BreSubstitute.Substitute | src/lib/bre.c:637-705 | NULL for a malformed pattern exactly when its readable part matches somewhere, and else only where a group is met; a copy when nothing matches; otherwise prefix, expansion, suffix and NUL fill the buffer exactly, around the leftmost longest match. |
| BreSubstitute.PlainReplacement | src/lib/bre.c:684-700 | A replacement without a backslash stands for itself, whatever was captured. |
| BreSubstitute.SingleReference | src/lib/bre.c:684-700 | A replacement that is one reference stands for exactly the captured slice, or for nothing if that group was not recorded. |
| BreSubstitute.ReplacementMeans | src/lib/bre.c:684-700 | A replacement printed from characters and references stands for the characters and the captured slices, in order; a backslash in front of anything but a digit from 1 to 9 is a character. |
| BreSubstitute.EveryReplacementHasParts | src/lib/bre.c:684-700 | Every string is the print of such parts, so this is the meaning of every replacement. |
| Flash.Vfs.Mount | fat16/vfs.c:137-193 | Magic, sequence and checksum select the slot; the other slot is the fallback; the loaded number and slot become current. |
| Flash.Vfs.Flush | fat16/vfs.c:195-248 | The inactive slot is written with the next number; success is reported, and the slot switched, exactly when the write was full and the payload reads back with its checksum. |
| Flash.Vfs.Change | fat16/vfs.c:592 | A change in memory marks the image dirty and leaves the flash as it is. |
| Flash.MountKeepsRecoverable | fat16/vfs.c:137-193 | A mount loads an acceptable payload and keeps the recovery invariant. |
| Flash.FlushKeepsRecoverable | fat16/vfs.c:195-248 | A flush, complete or cut off after any number of sectors, keeps the recovery invariant. |
| Flash.RunKeepsRecoverable | fat16/vfs.c:137-248 | The invariant holds after every sequence of changes, flushes, crashes and mounts. |
| Flash.MountRecovers | fat16/vfs.c:137-248 | From any flash with a valid slot, after any run, a mount loads exactly the payload of the last flush that reported success or of one attempted since: never a mixture, never an older one. |
| Flash.SuccessIsDurable | fat16/vfs.c:226-247 | Right after a reported success a mount brings back what was in memory. |
| Flash.CollisionFreeRunIsSound | fat16/vfs.c:195-248 | With a checksum without collisions no assumption on torn writes is left: every run on an honest medium, below the last number, satisfies the premise of the recovery theorem. |
| Flash.TornFlushIsSafeExactlyWhenDetected | fat16/vfs.c:165-176 | After a flush cut off behind its header a mount avoids a mixture if and only if the checksum tells the tear from the intended payload. |
| Flash.LostHeaderIsMissedExactlyOnEqualChecksums | fat16/vfs.c:233-241 | The read-back looks at the payload only: a write that lost even its header is reported as a success if and only if the old payload has the same checksum. |
| Flash.CompleteFlushIsPreferredExactlyByNumber | fat16/vfs.c:150-155 | A mount prefers the slot just written if and only if its number is larger, or equal with the new slot being slot 1. |
| Flash.WrapLosesFlush | fat16/vfs.c:218-223 | The input for the other half: at the last 64-bit number a flush reports success and the next mount loads the old payload. |
| Flash.NothingLeftToFlush | fat16/vfs.c:195-201 | After a flush that reported success, and after a mount, another flush changes nothing and reports success. |
| Flash.RetrySucceeds | fat16/vfs.c:195-248 | A failed flush can be made up for: a full one after it succeeds with the number two further on, leaves the other slot alone, and is what a mount loads. |
| Flash.LoadsExactly | fat16/vfs.c:149-175 | A mount loads a slot if and only if one slot has the magic 0xF416 and one slot has a matching checksum; the fallback does not look at the magic of its slot. |
| Flash.FreshFlashIsNeverWritten | fat16/vfs.c:156-175 | A flash on which a mount finds nothing to load is never written, over any run, while every flush reports success. |
| FatChains.ThreadedIsForest | fat16/vfs.c:370-382 | A FAT that is consistent with its chains is a set of pairwise disjoint acyclic chains that each end in 0xFFFF. |
| FatChains.StartChain | fat16/vfs.c:751-757 | Marking a free cluster adds a chain of one cluster and keeps all others. |
| FatChains.ExtendChain | fat16/vfs.c:519-540 | Linking a free cluster behind the last one lengthens that chain and keeps all others. |
| FatChains.FreeChain | fat16/vfs.c:614-619 | Clearing the clusters of one chain removes that chain and keeps all others. |
| FatChains.Conservation | fat16/vfs.c:370-382 | Free clusters and chained clusters together are always 123, the clusters 2 to 124. |
| FatChains.ChainFits | fat16/vfs.c:370-382 | No chain is longer than 123 clusters. |
| FatChains.ByteOfFile | fat16/vfs.c:469-473 | Byte k of a file is in the cluster k / 4096 of its chain, and cluster 2 is the first of the data area. |
| FatFiles.Fat16.AllocateCluster | fat16/vfs.c:521-527 | Takes the lowest free cluster, or none exactly when none is free. |
| FatFiles.Fat16.AddCluster | fat16/vfs.c:519-540 | One round of the extension loop: the chain of one file is one cluster longer, contents and other chains are unchanged; it fails exactly when no cluster is free. |
| FatTree.ParsePath | fat16/vfs.c:251-267 | The parsing loop: at most four components, none over 11 characters. |
| FatTree.PathIsRead | fat16/vfs.c:251-267 | A path printed from the names of its components is read as the first four of them, and not at all if one of these has more than eleven characters. |
| FatTree.LookUp | fat16/vfs.c:269-302 | The descent and the search behind it compute the lookup of an entry. |
| FatTree.LookUpParent | fat16/vfs.c:267-302 | One component less, they compute the lookup of the parent directory. |
| FatTree.FindEntryExactly | fat16/vfs.c:273-297 | An entry is found if and only if every component, the last one included, names a directory and the directory so reached holds an entry with the last component's name. |
| FatTree.RegularFileIsNeverFound | fat16/vfs.c:273-297 | A path that names a regular file is never found. |
| FatTree.BackedFinds | fat16/vfs.c:577 | Looking up the path of an open file finds that file's entry or none, and finds it exactly when all components lead to its directory. |
| FatFiles.ExistingFileCannotBeOpened | fat16/vfs.c:318-355 | No flags open a regular file by its path: it is not found, and creating it anew is refused. |
| FatFiles.OnlyNamesakesAreFound | fat16/vfs.c:273-297 | What a path does find is the entry of the same name inside the directory that it names, and nothing else. |
| FatFiles.SizeIsNotStored | fat16/vfs.c:574-578 | While the path names a regular file, a write leaves every directory entry as it is. |
| FatFiles.CreatedIsNamed | fat16/vfs.c:331-390 | The path of a file that was just created names a regular file, and so does not find it. |
| FatRoundTrips.CreateWriteCloseOpen | fat16/vfs.c:304-590 | The input on which it shows: create `/a`, write one byte, close; the size in the entry is 0, the byte is no longer part of the file, and no flags open `/a` again. |
| FatContents.SizeReachesEntry | fat16/vfs.c:574-579 | A write past the old size changes no entry but the one of the open file, in nothing but its size, and the new size gets there if and only if all components of the path lead to the directory that holds the entry. |
| FatFiles.Fat16.WritePast | fat16/vfs.c:488-596 | The same of the write itself: afterwards the size in the entry is the length of the file if and only if all components of the path lead to the directory of the entry. |
| FatRoundTrips.WriteCloseOpenRead | fat16/vfs.c:304-596 | Where a path does find a closed file: open, write, close, open again and read gives back all bytes written, and the write fails only for want of clusters. |
| FatRoundTrips.NamesakeKeepsByte | fat16/vfs.c:304-795 | The input for that half: a directory `/a` with a file `a` inside; a byte written through the path `/a` is read back after close. |
| FatFiles.Fat16.Read | fat16/vfs.c:436-486 | A read returns exactly the slice at the offset, as much of it as there is, and moves the offset by as much; no file changes. |
| FatFiles.Fat16.Write | fat16/vfs.c:488-596 | On a writable descriptor a write replaces or extends at the offset and leaves every other file alone. It takes as many bytes as the chain has room for after the clusters the 32-bit sum asks for; it fails exactly when those are not free or there is no room, and then no contents, descriptors or entries change. A new size goes into the entry that looking the path up finds, and nowhere if it finds none. |
| FatFiles.Fat16.WriteAll | fat16/vfs.c:488-596 | Where the sum does not wrap a write takes all bytes, or, for want of clusters, none. |
| FatContents.Advancing | fat16/vfs.c:574-590 | A write keeps entries, directories, chains and all descriptors in agreement, wherever its size goes. |
| FatContents.AddedIsEnough | fat16/vfs.c:499-505 | Without a wrap the clusters added are the missing ones, and all bytes fit. |
| FatContents.WholeUnlessWrapped | fat16/vfs.c:499-595 | Without a wrap a successful write takes all bytes, and a write of at least one byte fails exactly for want of clusters. |
| FatContents.WrappedCountAddsNothing | fat16/vfs.c:499-501 | The input for the other half: a count that brings the 32-bit sum to zero adds no cluster, so only what fits the old chain is written. |
| FatFiles.Fat16.WriteClusters | fat16/vfs.c:543-572 | The copying loop puts every byte in its place until the count or the chain is used up, and touches no cluster of another chain. |
| FatFiles.Fat16.ReadClusters | fat16/vfs.c:452-482 | The copying loop of the read delivers the contents along the chain. |
| FatContents.ReadBack | fat16/vfs.c:436-596 | What was written is read back through the same descriptor, and nothing in front of it has moved. |
| FatContents.ConsecutiveWrites | fat16/vfs.c:543-590 | Two writes in a row, each moving the offset on, are one write of both pieces. |
| FatFiles.Fat16.Open | fat16/vfs.c:304-420 | An entry that is found opens with its contents as they are, unless it is a directory or `O_CREAT` and `O_EXCL` are given; where none is found and `O_CREAT` is given, a new empty file with one cluster, in the first unused slot of the parent. A descriptor at offset 0 in a slot that was unused, or -1 with all as before but for an empty file that had been created; success exactly when an access is asked for, a slot is unused and there is such an entry. Both access bits are always granted, as the flag test does. |
| FatFiles.Fat16.Close | fat16/vfs.c:422-434 | Releases exactly the given descriptor, or fails on one not in use; the file is cut to the size in its entry. |
| FatFiles.Fat16.Mkdir | fat16/vfs.c:710-795 | Succeeds exactly when the parent is found, the name is new, the parent has an unused slot and a cluster is free; then one entry and one directory are new and nothing else changes, and no file contents change in any case. |
| FatFiles.Fat16.Unlink | fat16/vfs.c:598-626 | Fails where nothing, or a directory, is found, and changes nothing then; otherwise removes exactly the file that is found and frees exactly the clusters of its chain. |
| FatFiles.Fat16.FreeClusterChain | fat16/vfs.c:614-619 | The loop ends and clears exactly one chain. |
| FlashLayout.VolumeExactly | fat16/vfs.c:178-185 | A mount reads a boot sector, FAT, root directory and data back from exactly those payloads that lay them out: both round trips of the layout, field by field. |
| FlashLayout.EntryExactly | fat16/vfs.c:36-44 | The same for one directory entry of 32 bytes. |
| FlashLayout.FatAt | fat16/vfs.c:178-181 | The entry of a cluster stands at byte 1024 + 2c of the image, low byte first. |
| FlashLayout.FieldsAre | fat16/vfs.c:36-44 | Name, attributes, first cluster and size of entry i of the root stand at 0, 11, 26 and 28 behind byte 1536 + 32i, low bytes first. |
| FlashLayout.DataAt | fat16/vfs.c:184-185 | The data area is the 512000 bytes behind byte 9728. |
| FlashLayout.MagicBytes | fat16/vfs.c:19-25 | A slot is considered exactly if its image starts with 16 F4 00 00. |
| FlashLayout.TornImage | fat16/vfs.c:195-226 | The first k sectors of one image over another, byte for byte, are what the recovery proof takes for a torn write. |
| FlashLayout.LayOut | fat16/vfs.c:203-211 | The copies of a flush lay the file system out in the buffer, whatever else is in it. |
| FlashLayout.MountRecoversVolume | fat16/vfs.c:137-248 | Wherever a run is cut off, the next mount brings back the FAT, entries and data of the last flush that reported success or of one attempted since. |
| FlashLayout.FlushedVolumeComesBack | fat16/vfs.c:178-247 | Right after a reported success a mount brings back the FAT, entries and data that were laid out. |
| GetoptExchange.Rotate | src/lib/getopt.c:20-53 | The block-swap loop ends and swaps the two adjacent blocks in place, order kept inside each, everything outside unchanged. |
| GetoptExchange.ParkLeft | src/lib/getopt.c:28-38 | Parking the short left block leaves a smaller rotation with the same outcome. |
| GetoptExchange.ParkRight | src/lib/getopt.c:39-49 | Parking the short right block leaves a smaller rotation with the same outcome. |
| GetoptExchange.RotatedIsConcat | src/lib/getopt.c:20-53 | The pointwise description is the concatenation with the two blocks exchanged. |
| GetoptSpec.FindsIsUnique | src/lib/getopt.c:67-113 | At most one outcome of a long-option lookup fits: first exact name, else the only abbreviation, else ambiguous or unknown. |
| GetoptSpec.FindsExists | src/lib/getopt.c:67-113 | Every name has such an outcome. |
| GetoptSpec.PartitionIsStable | src/lib/getopt.c:197-258 | The partition is stable: a choice of positions makes the options exactly the chosen elements and the operands the others, both in original order. |
| GetoptSpec.OptionEndBounds | src/lib/getopt.c:260-347 | An option reaches at least one element on and never past the end. |
| GetoptScanner.GetoptState.FindLongOption | src/lib/getopt.c:67-113 | The two loops find what the declarative lookup says. |
| GetoptScanner.GetoptState.ProcessLongOption | src/lib/getopt.c:55-171 | Consumes the element and, if the option requires it, the next one; returns the value, or 0 for an option with a flag pointer, `?` or `:`, and leaves argument, option index and `optopt` as the lookup and the `=` decide; declines exactly for a single-dash word that is a short cluster. |
| GetoptScanner.GetoptState.ShortOption | src/lib/getopt.c:281-347 | The next letter: returned code, argument, `optopt` and how far the scanner moves, for each way the option string can declare it. |
| GetoptScanner.GetoptState.ReadOption | src/lib/getopt.c:260-347 | Reading on takes exactly the first of the reports still to come and keeps the state between calls. |
| GetoptReports.OptionReportsSuffix | src/lib/getopt.c:260-347 | What an option reports depends only on the vector from its element on, so moving operands in front of it changes nothing. |
| GetoptDeclared.ReadsDeclared | src/lib/getopt.c:281-347 | From an option string printed from a list of declarations, each declared letter is read as it was declared: without, with a required, with an optional argument, or as `W;`. |
| GetoptDeclared.ReadsUndeclared | src/lib/getopt.c:285-292 | Every other letter is unknown. |
| GetoptDeclared.BareLettersMean | src/lib/getopt.c:281-347 | A cluster of letters without arguments, or unknown ones, reports each letter in turn and takes one element. |
| GetoptDeclared.ArgumentMeans | src/lib/getopt.c:314-342 | The letter with an argument that ends a cluster: text behind it is the argument; without text a required one takes the next element, or is missing at the end of the vector, and an optional one is absent. |
| GetoptDeclared.LongOptionMeans | src/lib/getopt.c:55-171 | What `--name` and `--name=value` report and how far they reach, from the table of long options and the outcome of the lookup. |
| GetoptDeclared.LettersNameLongOption | src/lib/getopt.c:294-312 | With `W;` declared, `-Wname` reports and reaches what `--name` does. |
| GetoptScanner.SplitAfterExchange | src/lib/getopt.c:218-222 | Exchanging keeps the skipped operands together and in order behind the options read so far. |
| GetoptScanner.TakeOption | src/lib/getopt.c:255-347 | Consuming one option keeps the invariant of a permuting run. |
| GetoptScanner.AfterDoubleDash | src/lib/getopt.c:229-238 | A `--` with the operands moved behind it leaves the partitioned vector with the index at the boundary. |
| GetoptScanner.GetoptState.NextElement | src/lib/getopt.c:212-258 | Rearranges, skips operands and either ends the run with the vector partitioned or stops at an option with the invariant intact. |
| GetoptScanner.GetoptState.GetoptInternalR | src/lib/getopt.c:197-347 | Each call reports the first of what the vector still denotes, keeps the invariant between calls and makes progress. It returns -1 exactly when nothing is left to report, with the vector in its stable partition and `optind` at the boundary (PERMUTE), or unchanged and `optind` at the declared place (other modes). |
| GetoptScanner.ScanAll | src/lib/getopt.c:197-347 | A whole run, in each mode: the calls return exactly the sequence of codes, arguments and `optopt` values that the vector denotes, and the run ends with the vector in its stable partition, or unchanged, and `optind` at the boundary. |
| GetoptDeclared.WordsReport | src/lib/getopt.c:197-347 | A vector printed from words (operands, clusters with or without an argument, long options, `--` and what follows) reports in each mode what the words say, one after the other. |
| GetoptDeclared.WordsPartition | src/lib/getopt.c:197-258 | Its stable partition has the elements of the option words in front and the operands behind. |
| GetoptDeclared.WordsBoundary | src/lib/getopt.c:197-258 | In the other modes the scan ends where the words say: in front of the first operand, or behind all of them. |
| GetoptDeclared.OptionStringReads | src/lib/getopt.c:173-195 | Leading `+`, `-` and `:` of the option string, and the POSIXLY_CORRECT setting, select mode and silence. |
| GetoptDeclared.ScanWritten | src/lib/getopt.c:197-347 | The whole run on such a vector, from printed option string to reports, final order of the vector and final `optind`, said in terms of the words alone. |
| EdSpec.DeleteFollows | src/ed/ed.c:130-149 | After a deletion a mark denotes the same line, or its line is gone and it is unset. |
| EdSpec.InsertFollows | src/ed/ed.c:154-168 | After an insertion a mark denotes the same line. |
| EdSpec.MoveFollows | src/ed/ed.c:2211-2241 | After a move, forward or backward, every mark denotes the same line: marks move by the permutation of the lines. |
| EdSpec.MoveIsInjective | src/ed/ed.c:2214-2241 | The permutation never takes two positions to one. |
| EdSpec.MoveIsSplice | src/ed/ed.c:2142-2202 | A move puts the block right behind the destination line and keeps all other lines in order. |
| EdSpec.MoveConserves | src/ed/ed.c:2142-2202 | A move conserves the multiset of lines. |
| EdSpec.MarksFollowTheirLines | src/ed/ed.c:130-168 | Over every run of insertions, deletions, moves and other `k` commands a set mark denotes the same line identity until that line is deleted, and is unset from then on. |
| EdSpec.UnsetStaysUnset | src/ed/ed.c:130-168 | A mark whose line is gone stays unset, and the line does not come back. |
| EdSpec.StepKeepsLines | src/ed/ed.c:753-873 | Every edit keeps line identities distinct and never reuses one. |
| EdSpec.StepKeepsMarksInRange | src/ed/ed.c:130-168 | Every edit keeps every mark inside the buffer. |
| EdSpec.DescendingDeletion | src/ed/ed.c:1252-1264 | Deleting collected lines from the last index down leaves exactly the lines outside the range and those inside it that were not selected, in order, for any predicate. |
| EdSpec.SurvivorsAre | src/ed/ed.c:1252-1264 | The survivors of the range are all the lines that were not selected and no other. |
| EdBuffer.Editor.UpdateMarksAfterDelete | src/ed/ed.c:130-149 | The loop over the 26 marks computes the declared shift for each. |
| EdBuffer.Editor.UpdateMarksAfterInsert | src/ed/ed.c:154-168 | The loop over the 26 marks computes the declared shift for each. |
| EdBuffer.Editor.UpdateMarksAfterMove | src/ed/ed.c:2211-2241 | The loop with its two directions computes the declared permutation for each mark. |
| EdBuffer.Editor.PrepareUndo | src/ed/ed.c:58-84 | The snapshot holds the texts of all lines and the current line; the buffer is unchanged. |
| EdBuffer.Editor.AppendLine | src/ed/ed.c:753-817 | One insertion behind the address of the lines up to the dot or the end of input, marks moved along, and where the current line goes with and without text. |
| EdBuffer.Editor.InsertLine | src/ed/ed.c:819-873 | The same in front of the address. |
| EdBuffer.Editor.ReadFileAtAddress | src/ed/ed.c:2022-2078 | The lines of a file come in behind the address; marks, dirty flag and current line follow exactly if bytes were counted; or an error and an unchanged buffer. |
| EdBuffer.CountIsLength | src/ed/ed.c:2054-2068 | The count of bytes that is reported is the length of the file. |
| EdBuffer.AllLinesAccepted | src/ed/ed.c:2054-2068 | The lines taken from a file are all of its lines, in order. |
| EdBuffer.LinesBeforeDot | src/ed/ed.c:753-817 | The lines typed in are those in front of the first lone dot, or all of them. |
| EdBuffer.ReadInIsEditExactly | src/ed/ed.c:2069-2076 | Reading a file is one edit, with its marks moved, if and only if bytes were counted, or no line came in, or no mark stands at or behind the insertion. |
| EdBuffer.LinesWithoutBytes | src/ed/ed.c:2063-2070 | Lines come in without a byte being counted exactly when the file is one line that starts with a NUL and lacks a newline. |
| EdBuffer.UnmovedMark | src/ed/ed.c:2069-2076 | A mark that is not moved keeps denoting its line exactly when it stands in front of the insertion. |
| EdBuffer.NulLineLosesMark | src/ed/ed.c:2022-2078 | The input on which a mark is lost: such a file read in front of a marked line. |
| EdBuffer.Editor.DeleteLine | src/ed/ed.c:967-1003 | One deletion with the marks updated, or an error and an unchanged buffer. |
| EdBuffer.Editor.DeleteRange | src/ed/ed.c:1006-1056 | One deletion of the range with the marks updated, or an error and an unchanged buffer. |
| EdBuffer.Editor.ChangeRange | src/ed/ed.c:2114-2139 | A deletion and an insertion in its place; the snapshot kept is the buffer between the two. |
| EdBuffer.Editor.MoveRange | src/ed/ed.c:2142-2242 | One move of the range behind the destination with the marks moved by the same permutation; the errors; the last moved line becomes current. |
| EdBuffer.Editor.CopyRange | src/ed/ed.c:2245-2297 | One insertion of fresh copies of the range behind the destination, even where that lies inside the range. |
| EdBuffer.Editor.SetMark | src/ed/ed.c:1541-1562 | Sets one mark to a line of the buffer, or fails. |
| EdBuffer.Editor.Undo | src/ed/ed.c:1901-1922 | Puts the snapshot back once; marks are not touched. |
| EdBuffer.Editor.DeleteAndUndo | src/ed/ed.c:1006-1922 | A deletion and `u`: all texts and the current line come back, but the marks of the deleted lines stay unset and the others stay shifted. |
| EdBuffer.Editor.GlobalDelete | src/ed/ed.c:1425-1463 | `g/re/d` and `v/re/d`: exactly the unselected lines stay, in order, and the whole is a run of deletions, so that marks follow their lines through it. |
| EdBuffer.SessionIsRun | src/ed/ed.c:753-873 | Commands performed one after the other make one run of edits, with the same outcome. |
| Chgenc.HeadOfBytes | level1/chgenc.c:77-164 | In each scheme the bytes of a scalar value decode to it and to nothing more, whatever follows. |
| Chgenc.CodesOfAllBytes | level1/chgenc.c:77-164 | Decoding undoes encoding on every sequence of scalar values. |
| Chgenc.MarkStartsText | level1/chgenc.c:62-73 | The bytes of a text start with the byte order mark exactly when the text starts with U+FEFF. |
| Chgenc.RoundTrip | level1/chgenc.c:60-246 | In all ten encodings a text of scalar values comes back, but for a leading U+FEFF where no mark is written. |
| Chgenc.RoundTripExactly | level1/chgenc.c:60-246 | A sequence comes back unchanged if and only if it holds scalar values only and does not start with U+FEFF in a variant without a mark. |
| Chgenc.DecodesScalars | level1/chgenc.c:77-164 | Arbitrary bytes decode to scalar values only. |
| Chgenc.ConversionLosesNothing | level1/chgenc.c:60-246 | Whatever was decoded survives encoding and decoding in any other encoding, up to that U+FEFF. |
| Chgenc.ThereAndBack | level1/chgenc.c:60-246 | The encoded form of a text that does not start with U+FEFF, converted to any encoding and back, is the same byte for byte. |
| Chgenc.OnlyFromItsBytes | level1/chgenc.c:83-101 | A code point other than the replacement is only decoded from its own encoding: overlong forms, surrogates and values that are too large are all replaced (section 3 of RFC 3629, section 2.2 of RFC 2781). |
| Chgenc.HeadTakesWhatItAnnounces | level1/chgenc.c:81-123 | Well-formed or not, a step consumes what the lead byte or first unit announces, and ends the decoding exactly when the input is shorter. |
| Chgenc.HeadExactly | level1/chgenc.c:77-164 | A step yields a code point other than the replacement if and only if the bytes of that code point stand at the front. |
| Chgenc.CleanBytesComeBack | level1/chgenc.c:60-246 | If nothing was replaced, encoding what was decoded gives the bytes back, up to a tail shorter than a unit. |
| ChgencForms.FormExactly | level1/chgenc.c:170-246 | The bytes of a code point, bit operations and all, are the ones whose value as a sum of powers of 64, 256 or 1024 over the bytes is that code point, in either byte order. |
| ChgencForms.FormIsDecoded | level1/chgenc.c:77-164 | Where such bytes stand at the front the step yields that code point and takes exactly them. |
| ChgencForms.OtherwiseReplaced | level1/chgenc.c:83-157 | Where the bytes of no scalar value stand at the front, the step yields U+FFFD, in UTF-8 the bytes EF BF BD. |
| ChgencForms.CutIsNoForm | level1/chgenc.c:83-157 | A sequence that is cut is none of the forms and ends the decoding with one U+FFFD. |
| ChgencForms.MarksAre | level1/chgenc.c:174-178 | The byte order marks, byte for byte. |
| ChgencForms.NonScalarBytes | level1/chgenc.c:180-240 | A surrogate is written as U+FFFD in UTF-8 and UTF-16, a number beyond U+10FFFF in UTF-8 as EF BB BF EF BF BD, and UTF-32 writes every number as it is. |
| Chgenc.Decode | level1/chgenc.c:60-168 | The loops with their early end on a cut sequence compute the decoding. |
| Chgenc.Convert | level1/chgenc.c:60-246 | The program decodes and encodes: its output decodes to the scalar values of its input, up to that U+FEFF. |
| Chgenc.Encode | level1/chgenc.c:170-246 | The loop computes the encoding, with the mark in front where the variant has one. |
| Sha256.Context.Transform | src/smoltar/sha256.c:44-83 | The schedule and round loops compute the compression function of section 6.2.2 of FIPS 180-4. |
| WordBits.ChBits | src/smoltar/sha256.c:24 | Bit by bit: where x has a one the bit of y, otherwise that of z (section 4.1.2 of FIPS 180-4). |
| WordBits.MajBits | src/smoltar/sha256.c:25 | Bit by bit: the majority. |
| WordBits.RotRightBits | src/smoltar/sha256.c:22 | Bit i of the rotation is bit i + n, taken around at 32. |
| WordBits.EpBits | src/smoltar/sha256.c:26-27 | The two sigmas of the rounds are three bits each, at the distances of the standard, added without carry. |
| WordBits.SigBits | src/smoltar/sha256.c:28-29 | The two sigmas of the schedule likewise, with zeros coming in at the shift. |
| WordBits.AddIsModular | src/smoltar/sha256.c:50-83 | Addition is that of the numbers, modulo 2 to the 32. |
| Sha256Constants.FirstPrimes | src/smoltar/sha256.c:32-41 | The table `PRIMES` lists the first 64 primes: every prime below 312, and nothing else, in order. |
| Sha256Constants.RoundConstants | src/smoltar/sha256.c:32-41 | Section 4.2.2 of FIPS 180-4: each round constant is the first 32 bits of the fraction of the cube root of its prime. |
| Sha256Constants.InitialValue | src/smoltar/sha256.c:89-96 | Section 5.3.3 of FIPS 180-4: the words of the initial value are those of the square roots of the first eight primes. |
| Sha256Example.DigestOfAbc | src/smoltar/sha256.c:44-158 | The digest of the message `abc` is the one the standard publishes. |
| Sha256.ExtendSchedule | src/smoltar/sha256.c:48-51 | The two loops fill in all 64 words of the message schedule. |
| Sha256.RunRounds | src/smoltar/sha256.c:53-73 | Sixty-four rounds of shuffled variables are sixty-four applications of the round function. |
| Sha256.Context.Absorb | src/smoltar/sha256.c:103-111 | One more byte: the context stands for the message with that byte appended, across a full block as well. |
| Sha256.Context.Update | src/smoltar/sha256.c:99-112 | The context stands for the message with the piece appended. |
| Sha256.Context.Final | src/smoltar/sha256.c:114-158 | The digest is that of the whole message, padded and compressed at once. |
| Sha256.Context.LastBlock | src/smoltar/sha256.c:121-125 | With fewer than 56 bytes left one block ends the padded message. |
| Sha256.Context.LastTwoBlocks | src/smoltar/sha256.c:126-132 | With 56 bytes or more left two blocks end it. |
| Sha256.PaddingFillsBlocks | src/smoltar/sha256.c:120-143 | Section 5.1.1 of FIPS 180-4: the padding ends a block, and no smaller number of zeros would. |
| Sha256.LengthReadsBack | src/smoltar/sha256.c:134-143 | The eight length bytes read back as the length. |
| Sha256.HashBlocksAppend | src/smoltar/sha256.c:103-111 | Whole blocks may be compressed as they come. |
| Sha256.HashPieces | src/smoltar/sha256.c:99-158 | Any split of a message into updates gives the digest of the whole. |
| SmoltarFormat.FieldReadsBack | src/smoltar/smoltar.c:97-124 | An octal field reads back as the number, or as the largest that fits, for every number and width of at least 2. |
| SmoltarFormat.FormatOctal | src/smoltar/smoltar.c:97-114 | The right-to-left loop and the overflow branch write exactly that field, and nothing outside it. |
| SmoltarFormat.TooLarge | src/smoltar/smoltar.c:105-110 | The overflow test is true exactly when the number does not fit. |
| SmoltarFormat.ParseOctal | src/smoltar/smoltar.c:117-124 | The loop reads the leading octal digits. |
| SmoltarFormat.CalculateChecksum | src/smoltar/smoltar.c:127-141 | The sum of all bytes, the checksum field counted as spaces. |
| SmoltarFormat.ChecksumFits | src/smoltar/smoltar.c:127-141 | The sum of any header is below 8 to the 7. |
| SmoltarFormat.HeaderPassesChecksum | src/smoltar/smoltar.c:190-194 | Every header that is written passes the test of the reader. |
| SmoltarFormat.InitHeader | src/smoltar/smoltar.c:144-195 | A name with a separator is refused; otherwise all 512 bytes of the header. |
| SmoltarDamage.SeparatorsAre | src/smoltar/smoltar.c:151-157 | A separator is a slash or a backslash. |
| SmoltarDamage.NameField | src/smoltar/smoltar.c:159-160 | The name cut to 99 bytes, and zeros up to byte 100. |
| SmoltarDamage.NumberFields | src/smoltar/smoltar.c:162-174 | Mode, owner, group, size and time at bytes 100, 108, 116, 124 and 136, in octal. |
| SmoltarDamage.ChecksumField | src/smoltar/smoltar.c:190-194 | The checksum of the finished header at byte 148, in seven octal digits and a space. |
| SmoltarDamage.TypeAndMagic | src/smoltar/smoltar.c:176-188 | The type, the digest in the place of a link name, `ustar`, a NUL and version 00, at bytes 156, 157 and 257. |
| Smoltar.ComputeFileSha256 | src/smoltar/smoltar.c:75-94 | The digest of a file read in blocks, in hexadecimal, is that of its contents. |
| SmoltarCut.HexIs | src/smoltar/smoltar.c:75-94 | Each byte of a digest is two hexadecimal digits in lower case, the high one first. |
| Smoltar.AddFile | src/smoltar/smoltar.c:211-282 | Appends header, contents and zeros up to the next block, or refuses the name. |
| Smoltar.CreateArchive | src/smoltar/smoltar.c:285-315 | All files in order and two blocks of zeros; fails exactly when some name has a separator. |
| SmoltarCut.ArchiveIsBlocks | src/smoltar/smoltar.c:285-315 | An archive is whole blocks of 512 bytes: for each file one and those of its contents, and two of zeros. |
| Smoltar.SameAdvance | src/smoltar/smoltar.c:371-418 | A file takes the same number of bytes of the archive whether it is extracted or skipped. |
| Smoltar.PadsToRoundUp | src/smoltar/smoltar.c:412-413 | Contents and padding take exactly what skipping takes. |
| Smoltar.ExtractFile | src/smoltar/smoltar.c:318-421 | One file in all three modes: extracted, skipped, or cut short with the whole blocks that could be read. |
| Smoltar.ExtractArchive | src/smoltar/smoltar.c:424-470 | The loop with its end marker and its magic and checksum tests computes the extraction. |
| Smoltar.ExtractArchiveInstalls | src/smoltar/smoltar.c:424-470 | Extracting the archive of any files with non-empty NUL-free names and sizes below 8 to the 11 succeeds and is installing them one after the other, in every mode and with any prefix, names cut to 99 bytes. |
| Smoltar.ForceGivesBack | src/smoltar/smoltar.c:318-421 | In force mode without a prefix each file comes back under its name, unless a later one has the same. |
| Smoltar.OthersStay | src/smoltar/smoltar.c:318-421 | Files the archive does not name are untouched. |
| Smoltar.SafeTouchesNothing | src/smoltar/smoltar.c:348-355 | In safe mode no file that exists is changed, by any sequence of bytes taken for an archive. |
| SmoltarCut.SafeTakesFirst | src/smoltar/smoltar.c:348-355 | In safe mode a new name gets the contents of the first file that has it. |
| SmoltarCut.NormalMatchesDigest | src/smoltar/smoltar.c:356-369 | In normal mode each name ends with contents of the digest of the last file that has it. |
| SmoltarCut.NormalLeavesEqual | src/smoltar/smoltar.c:356-369 | In normal mode a file that has that digest already is not touched. |
| SmoltarDamage.DamagedArchive | src/smoltar/smoltar.c:438-459 | One byte changed in the header of any file of an archive, outside its checksum field: extraction stops there with the files in front installed, and it reports success if and only if the byte is the first of the name and has become 0. |
| SmoltarCut.ContentsAreNotChecked | src/smoltar/smoltar.c:395-409 | One byte changed in the contents of any file: in force mode extraction succeeds and installs the changed contents; the digest is not compared with what is extracted. |
| SmoltarCut.CutArchiveExtracts | src/smoltar/smoltar.c:395-418 | An archive cut off anywhere in an entry: success exactly inside the header or where the file is not wanted in this mode; otherwise the whole blocks of the contents that are there are installed, and extraction fails. |
| Smoltar.ListArchive | src/smoltar/smoltar.c:473-518 | The loop computes the listing. |
| Smoltar.ListArchiveLists | src/smoltar/smoltar.c:473-518 | Listing the archive gives the same names and sizes in order. |
| Smoltar.ListingFollowsExtraction | src/smoltar/smoltar.c:473-518 | Whatever can be extracted can be listed. |
| Smoltar.RoundTrip | src/smoltar/smoltar.c:285-518 | Create, extract and list together. |

## Left out

- Groups in regular expressions beyond bounds, termination and order of captures: an unquantified group scans forward through
  the text, so it has no place in the language theorem.
- Quantified groups (`src/lib/bre.c:357-389`): a pattern in which the matcher meets one is excluded by a precondition that
  group-free patterns always meet; only 256 advances are recorded for such a group and back-off then steps by one character.
- BreMatcher.MatchGroup: the branch to `match_group_with_quantifier`, for the same reason; likewise
  `BreMatcher.MatchGroupWithoutQuantifier`, `BreMatcher.BreMatchPattern` and `BreSubstitute.Substitute` on such patterns.
- `src/lib/bre2.c`: an older variant with another end-of-pattern rule.
- Integer overflow of text lengths.
- BreMatcher.ParseBreRepetition: a digit string whose value does not fit an `int` counts as too large; for `atoi` its value is
  undefined (section 7.22.1 of ISO C11), and an implementation may return a small one that is then accepted.
- BreLanguage.IntervalWasWritten: the same digit strings.
- BreWritten.PatternReads: pieces printed so that they are not read as something else: no `]` inside a bracket, a `-` there only in
  front, at the end or right behind a range, no `*` or `\+` as a character behind a piece without a count; and no groups.
- BreWritten.WrittenMeans, BreWritten.BestOf, BreWritten.MatchWritten: the same patterns.
- BreMatcher.BreMatchPattern: promises the declared language where runs fit the cap of 10000, and the capped language on all
  texts.
- Flash.MountRecovers: assumes that a torn payload does not collide with the checksum, that a write reported as full reached
  at least its header, and that the 64-bit number does not wrap; `Flash.TornFlushIsSafeExactlyWhenDetected`,
  `Flash.LostHeaderIsMissedExactlyOnEqualChecksums` and `Flash.CompleteFlushIsPreferredExactlyByNumber` say exactly when each
  assumption is needed. It starts from a slot with the magic and a matching checksum: nothing is claimed of a run after a
  fallback to a slot without the magic.
- The CRC-32 polynomial: the checksum is an abstract function.
- FlashLayout.VolumeExactly: the boot sector is 512 bytes of its own; in the code it is a structure of 16 bytes, and copying 512
  runs over into the FAT and the root directory, which the copies behind it then set.
- Timestamps, mutexes, `vfs_rmdir`, `vfs_stat` and directory reading.
- The entries of directories other than the root as bytes in the data area: `Fat16` keeps all directories as slots beside it.
  The two slots that a directory starts with are found by no name, although the padded names `.` and `..` would match them.
- FatTree.ParsePath: the byte behind the terminator, which the loop reads where a path has no further slash, counts as a
  terminator.
- FatFiles.Fat16.Write: the branch for a descriptor without a first cluster cannot be reached and is not modelled.
- FatFiles.Fat16.Open: at most one live descriptor per file; and paths of one to four components, the last of them a name that
  is not empty and does not start with the deletion mark. A deeper path is cut to four components on lookup, but its entry goes
  by the last one; `/` has the lookup read in front of its components.
- FatFiles.Fat16.Mkdir: the same paths.
- FatFiles.Fat16.Unlink: the same paths; and not of a file that is open, whose descriptor would keep pointing into freed
  clusters.
- Messages of the argument scanner, and the wrappers over global state; where a flag pointer and `longind` point to is the
  caller's, so the model returns the index and the value instead of storing them.
- GetoptScanner.GetoptState.GetoptInternalR: an option value of -1 in `longopts` is told apart from the end of the options.
- Address parsing, printing, joining, substitution, file names and brace command lists of the editor; the regular expression of
  `g` and `v` is an abstract predicate.
- EdBuffer.Editor.MoveRange: the destination must not be one past the last line, although the range check admits it, since
  storing there is outside the array; nor may the start lie behind the end.
- EdBuffer.Editor.CopyRange: the same two.
- EdBuffer.Editor.ReadFileAtAddress: the lines of the file are given as read, each up to its first NUL.
- EdBuffer.Editor.DeleteRange: not for a start behind the end, which the code does not reject and for which its shift loop runs
  past the lines.
- EdBuffer.Editor.ChangeRange: the same.
- EdBuffer.Editor.GlobalDelete: the same.
- EdSpec.MarksFollowTheirLines: `u` and `j` are no edits of this kind, as they do not touch the marks.
- Chgenc.Decode: the NULL result for an empty buffer is the empty sequence; the separate loops for the byte orders are one
  with a parameter.
- Sha256.Context.Update: pieces below 2 to the 32 bytes, since the loop counter has 32 bits; FIPS 180-4 itself stops at 2 to
  the 64 bits, beyond which the length is taken modulo 2 to the 64.
- Smoltar.CreateArchive: input files can always be opened and read.
- Smoltar.ExtractFile: output files can always be opened and written; a header without any NUL is cut at its end.
- Command-line parsing of the tools, and everything under `level2/`, `src/grep`, `src/batch`, `level1/sed.c` and
  `level1/led.c`: I/O plumbing or easier members.
