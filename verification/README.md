# Pakka, verified

A model of the pakka archive library and proofs about it. Pakka reads and writes the archive files of
a family of games: Quake and SiN PAK files, Daikatana PAK files with their byte codec, Doom WAD files,
and PK3/PK4 files, which are ZIP files. `dafny verify dfyconfig.toml` checks everything here.

## What is modelled

**Archives as state machines.** `PakArchives.Archive` is an open PAK-class archive: a linked list of
entries (`EntryLists`), the cached payload end, the dirty and rebuild flags, the atomic mode, and a
handle on a disk. `Disks.Disk` is the file system: a map from paths to bytes with open handles. Every
call on it may fail, a write may stop halfway, and a ghost log records the files at every moment, so that
a property of all moments is a property of every point at which the program could be stopped. The ghost
flag `trouble` says that some call has failed; contracts use it to rule out failures without a reason, and
whole runs clear it before every command and count how often it was set, so that one failure excuses one
command and no other.

The abstract view of an archive is its list of items: name, length, packed or not, stored bytes
(`PakStates.Items`). Each operation is proved against its effect on that list. The main results:

- `PakRuns.Run`: any sequence of adds, removals, renames, copies and commits, with failures anywhere, is a
  course of moments (`PakCourses`). Every command leads from one moment to the next: it does to the list what
  the reference list says or nothing, and the moment before settles its status; a call that fails can only
  turn that into a fault, or leave a status that has its reason all the same. That includes whether the
  archive is open, which is settled from moment to moment as well. What holds of every course is proved once:
  `Replayed`, `OpenUntil`, `UntornUntil`; `SafeAlways`, that at no moment the bytes of an entry are
  overwritten, whatever fails; and `Versioned`, that in atomic mode the file is at every moment one of a
  growing list of whole versions.
- `PakSessions.Session`: the same from opening a file to closing it, closing included, with what the file
  opens as before and after.
- `PakArchives.Archive.CommitRebuild`: the rebuild with its scratch file, shared payloads, rename and
  roll-back either leaves everything as it was or publishes a file that opens as the archive, with
  payloads shared exactly as before (`PakLayouts.SharingPreserved`).
- `PakRoundTrips`: bytes that were added are read back through their entry before a commit, after it and
  after opening the file again; `Readers.Interleave` for any interleaving of readers.
- `PakFormat.ImageReloads` and `PakFormat.WithoutHint`: what a commit writes is what opening reads, and a file
  that opens under its format opens the same without a hint, with two exceptions that are stated exactly;
  `PakRoundTrips.OpenAgain` applies this to the file of any commit or session.

**The Daikatana codec** (`DkCodec`): the decoder is exact about which streams it accepts, the greedy
encoder is undone by it for every input, and its size bound holds for every input.

**The ZIP container** (`ZipNames` to `ZipSessions`): building records and parsing them undo each other,
the rebuilding commit tiles the file and rolls back, and `ZipImages.RoundTrip` says exactly which
archives come back as they were written. `ZipRuns.Run` and `ZipSessions.Session` are the theorems on whole
runs and sessions, with `ZipCourses` in the place of `PakCourses`; `ZipRoundTrips` is about reading what was
written. DEFLATE is known only by its contract (`Deflate.Lossless`): unpacking undoes packing.

**References of their own.** What the specification functions decide is held against descriptions in other
terms: the published layouts of PAK, WAD and ZIP files in tags, numbers and places (`PakOnDisk`, `ZipOnDisk`,
`ZipWrittenOnDisk`), with every file that opens and the status of every one that does not; the codec as a
grammar of opcodes (`DkGrammar`); the rules for names, character by character (`NameRules`), and the
characters of code page 437 (`CodePage`); what an archive takes (`PakAdmission`, `ZipAdmission`); and how much
room a commit needs, in bytes (`PakLimits`, `ZipLimits`). `ZipForeign.OpensWhatIsThere` is about the files
that other programs write: their entries open with the payloads that their local headers point to.

**Byte-level helpers**: CRC-32 against bit-by-bit division (`Crc32`), UTF-8 validation and repair
against the grammar in section 4 of RFC 3629 (`Utf8`), little-endian fields (`ByteStrings`).

## What the proofs found

Where a promise does not hold of the code, the model keeps the code and states when the promise holds.

- An add in plain mode writes behind the payloads, which is where the directory of a committed file is.
  If it fails on a clean archive, the archive stays marked clean, and closing it repairs nothing.
  `PakHazards.FailedAddIsHarmlessExactly` says for which files this can lose the directory, format by
  format; they are all that commits write (`PakHazards.WrittenFilesAreAtRisk`). The ghost field `torn`
  notes such a write until the next commit; contracts ask for `Archive.Intact`, that there was none or
  that the directory does not reach behind the payload end. `PakSessions.Session` needs neither: a session
  that ends with something to commit, or in which no command reported such an error, is not affected.
- The writer has no bound on the number of entries, opening has one (`PakFormat.TooManyRows`).
- After an in-place commit the cached file size is the real one exactly if the file was not longer
  before (`PakArchives.Archive.CommitInPlace`). A rebuild does not refresh the cached size at all.
- An empty Daikatana archive opened without a hint is a Quake one (`PakFormat.EmptyDaikatanaOpensAsQuake`).
- A failing read while the format is being guessed counts as a layout that does not fit, so it can settle
  a file that is ambiguous (`PakAmbiguities.FailedProbeSettles`).
- A ZIP commit accepts 65535 entries, opening takes that count for the ZIP64 mark and refuses it
  (`ZipHazards.FullFile`); it likewise refuses an uncompressed size of 0xFFFFFFFF.
- A ZIP entry name that is not UTF-8 comes back changed or not at all (`ZipNames.ComesBackIffUtf8`), and
  two names may become one, which opening then refuses (`ZipHazards.TwoNamesBecomeOne`).
- Closing an existing archive ignores the result of closing its file.

## Model

| member | source | states |
|---|---|---|
| DkCodec.Inflate | src/dk_codec.c:72-172 | the decoder succeeds exactly if the meaning of the opcode stream is defined and fills the buffer; the buffer then holds that meaning and reading stopped where the meaning stops |
| DkCodec.DecodeOpcode | src/dk_codec.c:84-163 | one turn of the decoder loop agrees with the meaning of one opcode, including every refusal |
| DkCodec.Decode | src/dk_codec.c:84-163 | one opcode only appends, uses at least one byte of input and makes at most 65 bytes of output for each byte used |
| DkCodec.CopyBack | src/dk_codec.c:132-156 | an overlapping back-reference repeats the output at its distance: every new byte equals the byte that far before it |
| DkCodec.CopyBackIsUnique | src/dk_codec.c:132-156 | no other extension of the output repeats itself at that distance |
| DkCodec.CopyBackwards | src/dk_codec.c:151-156 | the byte-by-byte copy loop in the output buffer makes exactly that extension, also when source and target overlap |
| DkCodec.MeaningExtends | src/dk_codec.c:72-172 | decoding any stream appends only, reads at most the input, and produces at most 65 times the bytes it read |
| DkCodec.TrailingInputIgnored | src/dk_codec.c:72-172 | bytes after the terminator never change the result |
| DkCodec.Rejected | src/dk_codec.c:84-169 | an illegal or overrunning opcode at any point means that the whole stream is not accepted |
| DkCodec.CountRun | src/dk_codec.c:199-220 | the counting loop finds the longest run of the byte, up to its cap |
| DkCodec.CountZeroRun | src/dk_codec.c:199-206 | the zero-run count is the longest run of zeros, up to 64 |
| DkCodec.CountByteRun | src/dk_codec.c:208-220 | the byte-run count is the longest run of the byte at the position, up to 64 |
| DkCodec.MatchAtDistance | src/dk_codec.c:236-248 | the inner match loop finds the longest repetition at one distance that does not overlap its source |
| DkCodec.FindMatch | src/dk_codec.c:225-258 | the windowed search, with its early exit, finds the match that the exhaustive search over all distances keeps |
| DkCodec.BestMatchIsLongest | src/dk_codec.c:225-258 | no distance in the window gives a longer match than the one kept, and no nearer one gives an equal match |
| DkCodec.FullMatchIsFinal | src/dk_codec.c:248-252 | stopping at a match of the greatest length changes nothing |
| DkCodec.ChooseToken | src/dk_codec.c:286-308 | the choice between zero run, byte run, back-reference and literal follows the doubled weight of zero runs |
| DkCodec.ChosenTokenStands | src/dk_codec.c:286-337 | every token chosen is legal, decodes to exactly the input bytes it replaces and is strictly shorter than they are |
| DkCodec.EncodeStep | src/dk_codec.c:285-338 | one pass of the encoder loop advances and keeps output written plus output still due the same |
| DkCodec.WriteToken | src/dk_codec.c:327-336 | a token is written as its opcode bytes, with nothing before it changed |
| DkCodec.WriteLiteral | src/dk_codec.c:314-326 | a literal flush writes its length byte and the pending bytes |
| DkCodec.Deflate | src/dk_codec.c:260-349 | the encoder refuses exactly the buffers smaller than n + (n + 63) / 64 + 1 bytes, leaving them untouched, and otherwise writes the encoding |
| DkCodec.EncodeFromDecodes | src/dk_codec.c:274-347 | from every intermediate state, decoding what is still due restores the rest of the input |
| DkCodec.RoundTrip | src/dk_codec.c:260-349 | for every byte string, decoding the encoding with the original length succeeds, gives the input and stops at the terminator on the last encoded byte |
| DkCodec.EncodeFromBound | src/dk_codec.c:274-347 | from every intermediate state the output still due is within the literal-only cost of the input still unwritten: a token that cuts a literal run pays for the cut |
| DkCodec.EncodeBound | src/dk_codec.c:274-347 | the encoding never exceeds n + (n + 63) / 64 + 1 bytes |
| Crc32.TableIsRight | src/common.c:14-81 | every one of the 256 table entries is its index divided bit by bit by 0xEDB88320 |
| Crc32.TableStep | src/common.c:83-91 | one table look-up and shift is eight single-bit division steps, for every 32-bit state |
| Crc32.FeedAtOnce | src/common.c:83-91 | feeding the bits of a byte one by one is feeding them all at once before shifting |
| Crc32.ByteStep | src/common.c:83-91 | a whole message byte enters the remainder in one step |
| Crc32.Update | src/common.c:83-91 | the table-driven loop computes the bit-at-a-time remainder of every buffer, from every starting checksum |
| Crc32.CrcChains | src/common.c:83-91 | chaining over any split of a message is one pass over the concatenation |
| Crc32.OneByteChangeDetected | src/common.c:83-91 | changing one byte anywhere in a message always changes the checksum |
| ByteStrings.LittleEndianBack | src/common.c:117-139 | a number comes back from its little-endian field exactly if it fits the field |
| ByteStrings.FromLittleEndianBack | src/common.c:117-139 | every field is the bytes of the number it reads as |
| ByteStrings.U32RoundTrip | src/common.c:117-139 | a written 32-bit field reads back as its value |
| Utf8.SeqLenIsExact | src/common.c:220-257 | the sequence length is n exactly if the first n bytes are a UTF8-char of section 4 of RFC 3629 |
| Utf8.WellFormedStep | src/common.c:220-257 | text is well-formed exactly if its first sequence length is not 0 and the rest is well-formed |
| Utf8.IsValid | src/common.c:176-216 | the validation loop accepts exactly the UTF8-octets of section 4 of RFC 3629 |
| Utf8.SubstituteInvalid | src/common.c:259-283 | the repair loop writes the repaired text and its terminator inside the buffer and reports whether it replaced anything |
| Utf8.RepairIsWellFormed | src/common.c:259-283 | with an ASCII fill the result is well-formed and leaves room for the terminator, also when it was cut short |
| Utf8.RepairIsExact | src/common.c:259-283 | with room, repair keeps the length, changes nothing that was well-formed and reports a replacement exactly if the input was not |
| Utf8.RepairIsIdempotent | src/common.c:259-283 | repairing what was repaired changes nothing and reports nothing |
| Utf8.RepairTruncates | src/common.c:259-283 | a smaller buffer holds a prefix of what a larger one would hold |
| EntryNames.IsUnsafeName | src/pakfile.c:3797-3822 | the scan refuses a name exactly if it is empty, starts with a separator or has an unsafe segment |
| EntryNames.SafeName | src/pakfile.c:3683-3822 | a name that passes is not empty, has no control bytes and ends in no separator, dot or space |
| PakFormat.RowRoundTrip | src/pakfile.c:3891-3954 | reading a written directory row gives back all that the row records, in every format |
| PakFormat.CStringOfField | src/pakfile.c:3891-3954 | a name padded with zeros reads back as the name |
| PakFormat.DirectoryRoundTrip | src/pakfile.c:3956-4034 | parsing a written directory gives the same rows in the same order |
| PakFormat.ImageLayout | src/pakfile.c:3956-4034 | after a directory write the header is in front, says where the directory is, and the directory is there |
| PakFormat.ImageSize | src/pakfile.c:3956-4034 | the file then ends with the directory, unless it was longer before |
| PakFormat.ImageLoads | src/pakfile.c:643-1015 | opening a file that a commit wrote, under its format, gives exactly the header, rows and payload end it was written with |
| PakFormat.TooManyRows | src/pakfile.c:857-862 | a file written with more than 1048576 rows is refused with LimitError: the writer has no such bound |
| PakFormat.ImageReloads | src/pakfile.c:3956-4034 | so what was written opens as written exactly up to that number of rows |
| PakFormat.WithoutHint | src/pakfile.c:593-641 | every file that opens under its format opens the same without a hint, with exactly two exceptions: one that fits the other layout of the shared signature as well is refused, and a Daikatana one without rows opens as a Quake one |
| PakFormat.AutoNeverMisidentifies | src/pakfile.c:593-641 | without a hint a non-empty Quake or Daikatana file that a commit wrote opens as what it is, or is refused as ambiguous, exactly if the other layout fits as well |
| PakFormat.EmptyDaikatanaOpensAsQuake | src/pakfile.c:812-841 | an empty Daikatana archive opens as a Quake one when no hint is given |
| PakFormat.ImageProbes | src/pakfile.c:593-641 | the true layout always passes its own probe |
| PakFormat.OpensAsItsFormat | src/pakfile.c:643-865 | whatever format opening settles on, opening again under that format gives the same, within the row limit |
| PakFormat.PayloadEnd | src/pakfile.c:996-998 | the payload end found while loading bounds every payload |
| Sorting.SortSorts | src/pakfile.c:2683-2690 | sorting gives an ordered permutation, for any total order |
| PakSharing.BuildOwners | src/pakfile.c:2775-2806 | collecting keys, sorting them and passing owners along gives every row the first row that shares its bytes, and staged rows themselves |
| PakSharing.ShareAlong | src/pakfile.c:2795-2800 | passing owners along the sorted keys completes the owner map |
| PakSharing.FirstOfGroup | src/pakfile.c:2683-2690 | a key unlike the one before it belongs to the first row of its group |
| PakSharing.OwnerMapIsExact | src/pakfile.c:2775-2806 | owners precede and own themselves, and two rows have one owner exactly if they share bytes |
| PakLayouts.PlaceOwner | src/pakfile.c:2816-2828 | copying the payload of an owner to the end keeps the layout invariant |
| PakLayouts.PlaceAlias | src/pakfile.c:2814-2815 | giving an alias its owner's offset keeps the layout invariant |
| PakLayouts.SharingPreserved | src/pakfile.c:2775-2837 | after a rebuild aliases have one offset, and any two rows that did not share bytes have extents that do not overlap |
| PakLayouts.ImageHoldsPayload | src/pakfile.c:2839-2913 | the finished scratch file holds the copied payloads right behind the header |
| PakLayouts.RebuildPreservesMeaning | src/pakfile.c:2692-3021 | in the rebuilt file every row, now unstaged, denotes the very bytes it held or had staged before, with name, length and packing |
| PakLayouts.RepointingPreservesMeaning | src/pakfile.c:2994-3003 | the same holds before the staged payloads are dropped, which is the state when reopening fails |
| PakLayouts.LayoutFits | src/pakfile.c:2881-2897 | the new offsets fit the 32-bit fields of the directory |
| PakLayouts.StagedDoesNotShow | src/pakfile.c:3891-3954 | what is staged leaves no trace in the directory |
| PakLayouts.Publish | src/pakfile.c:2946-3020 | once renamed, the file means what the archive meant, in both states, and opens as it |
| Disks.Disk.Write | src/pakfile.c:2263-2279 | a write may stop after any prefix; only the file behind the handle changes, and the moment is recorded |
| Disks.Disk.Rename | src/pakfile.c:2952-2990 | a rename that works replaces the target as a whole; one that fails changes nothing |
| EntryLists.EntryList.Link | src/pakfile.c:1754-1764 | linking at the cached tail appends and keeps head, tail, count and order right |
| EntryLists.EntryList.Find | src/pakfile.c:1023-1039 | the walk finds the first entry of a name, or nothing exactly if there is none |
| EntryLists.EntryList.FindWithPrevious | src/pakfile.c:2442-2468 | the same walk with the node before it |
| EntryLists.EntryList.Bypass | src/pakfile.c:2444-2454 | unlinking a node keeps the other nodes in order, and the tail right |
| EntryLists.EntryList.Unlink | src/pakfile.c:2423-2474 | removes the first entry of a name and nothing else |
| EntryLists.EntryList.SetOffsets | src/pakfile.c:2881-2884 | new offsets go to every entry and nothing else changes |
| EntryLists.EntryList.Offsets | src/pakfile.c:2881-2884 | the offsets remembered for undoing are those of the rows |
| EntryLists.EntryList.ClearStaged | src/pakfile.c:3005-3014 | drops the staged payloads and nothing else |
| EntryLists.EntryList.At | src/pakfile.c:1057-1083 | walking to an index gives the entry at that place |
| PakStates.BeyondKeepsItems | src/pakfile.c:1985-2106 | writes behind the payload end or in the header leave every unstaged entry its bytes and the state sound |
| PakStates.ExtendsKeepsItems | src/pakfile.c:2752-2837 | new files beside the archive leave every entry its bytes |
| PakStates.SoundAfterAppend | src/pakfile.c:1754-1785 | an appended entry keeps the state sound and adds its item at the end |
| PakStates.SoundAfterCut | src/pakfile.c:2423-2474 | a removed entry keeps the state sound and the other items in order |
| PakStates.SoundAfterRename | src/pakfile.c:2476-2538 | a renamed entry keeps the state sound, and its content |
| PakStates.SoundIsWritable | src/pakfile.c:3956-4034 | in every sound state the directory can be written with no 32-bit field wrapping, behind every payload |
| PakStates.ReloadsMeans | src/pakfile.c:643-1015 | a file that opens with the rows in memory gives their items to whoever opens it |
| PakStates.MovedArchive | src/pakfile.c:517-573 | moving the file to another name changes no item |
| PakCopying.Append | src/pakfile.c:3599-3612 | an append extends the bytes written so far, and even a failed one only touches the file behind the end |
| PakCopying.FilledIsPoured | src/pakfile.c:2263-2279 | an append that stopped anywhere has spliced a first part of its data in at the payload end, at every moment a longer one, and changed nothing else |
| PakCopying.Stream | src/pakfile.c:3635-3681 | the chunked copy moves exactly n bytes and computes their checksum, or stops on a failure or a short source |
| PakCopying.ScanCrc | src/pakfile.c:1944-1972 | the add-time scan computes the checksum of the whole source |
| PakCopying.CopySource | src/pakfile.c:3485-3557 | a staged source is copied only if its size and checksum are those of the add; otherwise FormatError |
| PakCopying.CopyBetweenPaks | src/pakfile.c:3567-3681 | one payload, wherever it comes from, is copied whole to the end of the scratch file and its new offset fits 32 bits; it fails only for trouble, size or a changed source |
| PakCopying.OpenSource | src/pakfile.c:1720-1747 | a source is opened and measured if it is a regular file of at most 4 GiB |
| PakCopying.ConfinedKeepsItems | src/pakfile.c:1985-2106 | at every moment during writes behind the payload end every entry keeps its bytes |
| PakWriting.WriteParts | src/pakfile.c:3891-3954 | fields written one by one are their concatenation, and nothing before the place is touched |
| PakWriting.RowFields | src/pakfile.c:3891-3954 | the fields in the order the code writes them make up the row |
| PakWriting.HeaderFields | src/pakfile.c:3848-3880 | likewise the header, whose field order differs for WAD |
| PakWriting.WriteRow | src/pakfile.c:3891-3954 | one row is written as the row bytes |
| PakWriting.WriteRows | src/pakfile.c:3996-4011 | the walk over the list writes the directory of all rows in order, and counts its length |
| PakWriting.RewriteHeader | src/pakfile.c:3848-3880 | the header is replaced and nothing behind it |
| PakWriting.WriteDirectory | src/pakfile.c:3956-4034 | fails with LimitError exactly if there are rows and their bytes behind the payload end would pass 0xFFFFFFFF, having written nothing; on success the file is the old one with directory and header written, and no payload byte ever changed |
| PakWriting.WrittenReloads | src/pakfile.c:3956-4034 | what it wrote opens with the same rows, and the file size is known |
| PakWriting.WriteAndFlush | src/pakfile.c:3056-3066 | the same with the flush, which may still fail after everything was written |
| PakDirectories.LoadedIsFiled | src/pakfile.c:643-1015 | a file that opens has its directory where its header says |
| PakDirectories.ImageIsFiled | src/pakfile.c:3956-4034 | a file that a commit wrote has it where the caches say |
| PakDirectories.FiledStays | src/pakfile.c:2022-2093 | a file with its directory below the payload end opens with the same rows whatever is written behind that end |
| PakRebuilding.ChooseOwners | src/pakfile.c:2775-2806 | without memory for the owner map every row owns its bytes; otherwise the map is exact |
| PakRebuilding.CopyOne | src/pakfile.c:2813-2834 | one turn of the copy loop keeps the layout invariant |
| PakRebuilding.CopyAll | src/pakfile.c:2808-2837 | all payloads are laid out as the invariant says; it fails only for trouble, size or a changed source |
| PakRebuilding.StartScratch | src/pakfile.c:2752-2773 | a scratch file is created beside the archive and positioned behind the room for a header |
| PakRebuilding.FillScratch | src/pakfile.c:2728-2857 | the scratch file holds exactly the copied payloads; whatever fails, the archive was never touched |
| PakRebuilding.FinishScratch | src/pakfile.c:2893-2931 | directory and header complete the scratch file, or it is thrown away |
| PakRebuilding.SwapIn | src/pakfile.c:2933-3003 | the archive is the old file or the whole scratch file, whatever fails |
| PakRebuilding.Renamed | src/pakfile.c:2952-2990 | an atomic rename keeps the all-or-nothing property over the whole log |
| PakRebuilding.ScratchIsHarmless | src/pakfile.c:2752-2931 | writes to the scratch file keep it, too |
| PakPacking.Pack | src/pakfile.c:1864-1911 | a payload is packed exactly if format, name and size ask for it, it gets smaller and there is memory |
| PakPacking.PackedMeansData | src/pakfile.c:2161-2183 | what is stored stands for the data given, packed or not, and is never larger |
| PakArchives.Archive.CheckName | src/pakfile.c:1660-1715 | refuses long, unsafe and taken names in this order, where taken names are allowed for WAD |
| PakArchives.Archive.constructor | src/pakfile.c:227-339 | an archive whose file opens with its rows is valid and clean |
| PakArchives.Archive.Stage | src/pakfile.c:2185-2226 | in atomic mode an add touches no file; the entry is staged and a rebuild is due |
| PakArchives.Archive.WritePayload | src/pakfile.c:2255-2279 | in plain mode the payload goes behind the payload end; if that fails, a first part of it is there and nothing else has changed |
| PakArchives.Archive.AddMemory | src/pakfile.c:2111-2293 | exact status for every input; on success one entry is added that stands for the data; on failure nothing in memory changes and the file is the old one with a first part of the payload spliced in at the payload end; no live payload byte changes at any moment |
| PakArchives.Archive.AddFile | src/pakfile.c:1787-2109 | the same for a source file, in its three forms: packed, read at once, streamed or remembered |
| PakArchives.Archive.WriteStream | src/pakfile.c:2057-2093 | the chunk loop writes the source behind the payload end, or a first part of it |
| PakArchives.Archive.AppendStream | src/pakfile.c:1985-2106 | a streamed add in plain mode adds an entry with the source's bytes, or leaves the entries as they were and a first part of the source behind the payload end |
| PakArchives.AddSettled | src/pakfile.c:2111-2293 | if no call fails, the status of an add is settled by format, names, data, mode and payload end; if one fails, it is that status, a fault, or LimitError where the payload without packing has no room |
| PakArchives.Archive.Spill | src/pakfile.c:2263-2279 | after a failed write the archive stays valid: a clean one still has a file that opens as it, unless its directory reaches behind the payload end |
| PakArchives.Archive.CleanMeans | src/pakfile.c:3023-3077 | the file of a clean archive with its directory intact opens as the archive |
| PakArchives.Archive.StageSource | src/pakfile.c:1913-1977 | an add in atomic mode remembers path, size and checksum |
| PakArchives.Archive.ReadAndPack | src/pakfile.c:1872-1911 | a candidate for packing is read whole and packed |
| PakArchives.Archive.Delete | src/pakfile.c:2423-2474 | exact status; removes the first entry of the name, keeps the others in order and makes a rebuild due |
| PakArchives.Archive.Rename | src/pakfile.c:2476-2538 | exact status; only the name changes, and the same name is no change |
| PakArchives.Archive.Copy | src/pakfile.c:2540-2646 | exact status; the copy has the content of the original and, if that is on disk, shares its bytes without a rebuild |
| PakArchives.Archive.CommitInPlace | src/pakfile.c:3047-3074 | fails by itself exactly if payload end plus number of rows times row width passes 0xFFFFFFFF (PakLimits.HasRoom); on success the file opens as the archive; no payload byte changes; the cached size is the file size exactly if the file was not longer before |
| PakArchives.Archive.Install | src/pakfile.c:2862-2892 | the new offsets are in place and the old ones can be put back |
| PakArchives.Undone | src/pakfile.c:2898-2906 | putting the old offsets back restores every row |
| PakArchives.Archive.RollBack | src/pakfile.c:2898-2990 | after any failure before the rename rows, order, payload end and directory caches are as before the commit |
| PakArchives.Archive.WriteScratchDirectory | src/pakfile.c:2893-2931 | the scratch file becomes the image of the new layout |
| PakArchives.Archive.SwapArchive | src/pakfile.c:2933-3003 | the swap either publishes the whole new file or leaves the old one |
| PakArchives.Archive.Adopt | src/pakfile.c:2994-3020 | after the rename the staged payloads are dropped, unless the file could not be opened again |
| PakArchives.PublishLayout | src/pakfile.c:2946-3020 | a published layout is a sound state with the same items, and opens as it |
| PakArchives.Archive.CommitRebuild | src/pakfile.c:2692-3021 | ends with the old archive untouched and all state restored, or with the whole new file; entries keep name, length, packing and bytes; fails by itself only if too large or a source changed |
| PakArchives.Archive.Commit | src/pakfile.c:3023-3077 | does nothing when clean; after a success the file opens as the archive, unless it was clean and its directory was lost before; the contents never change, and atomic or rebuilding commits change the file all at once or not at all; if no call fails it succeeds exactly if there is room for the directory behind the payloads, or in a rebuild behind one copy of each, and no source has changed (PakLimits.Committable); if one fails, the status is that of a fault or has such a reason |
| PakLoading.ReadExactly | src/pakfile.c:914-956 | a read gives exactly the bytes asked for, or fails |
| PakLoading.ReadRow | src/pakfile.c:914-962 | reading a row field by field is parsing its bytes |
| PakLoading.ProbeLayout | src/pakfile.c:593-641 | the probing reads answer what the probe of the file says, unless a read fails |
| PakLoading.ReadHeader | src/pakfile.c:670-805 | reading signature and fields gives the header the bytes describe, or its refusal |
| PakLoading.Settle | src/pakfile.c:807-864 | the format is settled as the bytes say, unless a read fails; even then a layout chosen without a hint has passed its own probe |
| PakLoading.LoadPakfile | src/pakfile.c:643-865 | the header comes out as the bytes say, or with the same status, unless a read fails; even then the format has passed its own probe |
| PakLoading.LoadEntry | src/pakfile.c:904-1012 | one turn of the directory loop appends the row of the file and moves the payload end, or refuses it for its range |
| PakLoading.LoadRows | src/pakfile.c:891-1015 | the loop gives all rows of the directory in order, and stops exactly at a row whose payload is not in the file |
| PakLoading.LoadDirectory | src/pakfile.c:867-1015 | the rows in memory are the rows of the file, with their payload end |
| PakLoading.HasDuplicates | src/pakfile.c:176-220 | sorting and comparing neighbours finds a name twice exactly if there is one |
| PakLoading.ValidateNoDuplicates | src/pakfile.c:176-220 | refuses exactly the non-WAD directories with a repeated name |
| PakLifecycle.LoadedIsSound | src/pakfile.c:643-1015 | every file that opens gives a sound state that the file itself describes |
| PakLifecycle.LoadArchive | src/pakfile.c:312-335 | header, directory and name check together do what opening the bytes says |
| PakLifecycle.OpenArchive | src/pakfile.c:227-339 | the archive opened is valid, clean and means what the file means; a refusal is the file's own, which PakOnDisk.OpensExactly spells out in bytes, or trouble |
| PakLifecycle.CreateArchive | src/pakfile.c:341-470 | a new archive is an empty valid one in a temporary file; existing names are refused and other files kept |
| PakLifecycle.CommitNow | src/pakfile.c:3023-3077 | a commit leads from the moment before it to the one after it as every command of a run has to, and at the moments in between the file is the old one or the whole new one, or, without a rebuild, every entry keeps its bytes; only one during which a call fails can lose the handle |
| PakLifecycle.CommitPending | src/pakfile.c:485-496 | closing commits what is pending, with the same guarantees for the moments in between; nothing happens if nothing is pending; without a failed call it fails only if too large, a source changed or there is no handle |
| PakLifecycle.CloseArchive | src/pakfile.c:472-585 | on success the file under its final name holds the archive, and opens as it unless the archive was clean and its directory had been lost; the commit that closing makes leads on as any other, moments in between included, also if closing fails, and the file of an archive that has its name is left as that commit left it; a failed close of a new one leaves that name alone; without a failed call it fails only for a listed reason |
| PakLifecycle.Release | src/pakfile.c:498-573 | the bytes of the file are what was committed, under the name the archive is to have, or nothing has changed |
| PakLifecycle.Publish | src/pakfile.c:517-573 | the final rename never replaces an existing file |
| PakRuns.Step | src/pakfile.c:1787-3077 | every command leads from the moment before it to the one after it: the archive stays valid and sound, its list becomes what the reference list does if the command succeeds and stays otherwise, the status is the one that the moment before settles or, if a call fails, a fault or one with its own reason, a clean archive has a file that opens as it, the file at the moments in between is safe, and the archive is as open as before |
| PakRuns.Run | src/pakfile.c:1787-3077 | for all sequences of commands with failures anywhere there is a course of moments, from the one the archive was in to the one it is in, each led on by its command as Step says; exactly as many commands are excused by a failed call as met one, and each such excuse covers that command alone; being open, dirty, due for a rebuild or torn is settled from moment to moment |
| PakCourses.Replayed | src/pakfile.c:1787-3077 | along every course the archive holds, after each command, the replay on the reference list of the commands that succeeded |
| PakCourses.OpenUntil | src/pakfile.c:2940-3005 | an archive that is open stays so until a commit during which a call fails, and one that is not never becomes so, so that it refuses every change |
| PakCourses.UntornUntil | src/pakfile.c:1904-2109 | only a command that reported an input or output error can leave a clean archive with a file in doubt |
| PakCourses.SafeAlways | src/pakfile.c:1787-3077 | at every moment of every course, whatever fails, every entry from before the command under way has its bytes in the file, or the file already is the new one and opens as the archive after that command |
| PakCourses.Versioned | src/pakfile.c:2692-3021 | in atomic mode the file is at every moment of every course one of a growing list of whole versions, each of which is the file after one of the commands and opens as what the archive held then |
| PakCourses.NothingToSave | src/pakfile.c:3023-3035 | a commit of a clean archive succeeds and leads from a moment to the same moment |
| PakRuns.Turn | src/pakfile.c:1787-3077 | the verdict on a command does not depend on calls that failed before it |
| PakSessions.Session | src/pakfile.c:227-585 | opening a file, any commands and closing: the course of the commands and of the commit that closing makes starts with the file as it was, clean and open as the mode says, and ends with the file as it is; every status, also that of closing, is the one its moment settles unless a call failed during it; the file opened as some list, and if closing succeeds it opens as the replay of the successful commands on it, always in atomic mode and otherwise if there was something to commit or no command reported an input or output error |
| PakSessions.WhatBecomesOfIt | src/pakfile.c:472-585 | what the two files of a session open as follows from its course alone |
| Versions.ServesMore | src/pakfile.c:2894-2989 | a commit adds at most one version, and every moment during it serves the old or the new one, in this order |
| Readers.Reader.Read | src/pakfile.c:1478-1557 | a read delivers the next bytes of its own entry, whatever other readers did to the shared position: as many as asked for or as are left, so that none come exactly at the end |
| Readers.Interleave | src/pakfile.c:1478-1557 | for any order of reads by any readers of a PAK or ZIP archive, what each got, concatenated, is a prefix of its own entry, and delivered plus remaining is its length; every read that succeeds gives as much as it asked for or as its reader has left after the reads before it, and any other has failed for a failed call or a closed archive |
| Readers.OneMoreAnswer | src/pakfile.c:1478-1557 | one more answer keeps the account of what every reader got and has left |
| Readers.Drain | src/pakfile.c:2295-2413 | reading until nothing remains gives the whole entry |
| Readers.ReadOne | src/pakfile.c:1478-1557 | a read by one reader moves no other |
| PakReaders.Unpack | src/pakfile.c:1446-1471 | a packed payload is delivered unpacked, or refused exactly if the codec does not accept it |
| PakReaders.OpenStaged | src/pakfile.c:1167-1286 | a staged entry is read from memory or from its source file |
| PakReaders.OpenPacked | src/pakfile.c:1387-1472 | a packed entry on disk is read and unpacked, within the cap |
| PakReaders.OpenHandle | src/pakfile.c:1332-1476 | opening gives a reader of the entry's content, or fails for one of the listed reasons |
| PakReaders.ReadAll | src/pakfile.c:2295-2413 | the whole content of the first entry of a name, or NotFound exactly if there is none |
| PakReaders.ReadEntry | src/pakfile.c:1332-1557 | the whole content of an entry through its own handle, or one of the listed reasons |
| PakReaders.DeliversDenoted | src/pakfile.c:1332-1557 | an entry that stands for some content delivers that content |
| PakReaders.MeansOnce | src/pakfile.c:643-1015 | opening determines the items |
| PakRoundTrips.ReadBack | src/pakfile.c:1332-1557 | an entry that stands for data is read back as that data through its own handle; unless a call fails, it is refused exactly if it is packed and above the cap |
| PakRoundTrips.AddAndRead | src/pakfile.c:2111-2413 | bytes that have just been added are read back identical through the new entry, staged or written, packed or stored, also under a name a WAD already has; unless a call fails, the status is the verdict on the add and then on the cap |
| PakRoundTrips.CommitAndRead | src/pakfile.c:3023-3077 | any entry that stands for data is read back as that data after a commit, with the same reasons for a refusal |
| PakRoundTrips.OpenAgain | src/pakfile.c:227-339 | a file that stands for some items opens as them again under the name of its format, or, if there are any and not too many, without a hint; unless a call fails it is refused exactly if they are too many or no hint tells the two layouts apart that both fit |
| PakRoundTrips.ReopenAndRead | src/pakfile.c:472-585 | any entry that stands for data is read back as that data after closing and opening again; unless a call fails or closing does, it is refused exactly if there are more entries than opening accepts or it is packed and above the default cap |
| PakHazards.FailedAddIsHarmlessExactly | src/pakfile.c:2028-2093 | for every format and every file that opens: the file opens with its old rows whatever bytes a failed add leaves behind the payload end exactly if there are no rows, the directory ends before, or only padding behind the last name or all but a non-zero flag byte lies there |
| PakHazards.EveryLastByteCounts | src/pakfile.c:3891-3954 | in Quake and SiN files, where a row ends in a length, that is exactly if there are no rows or the directory ends before |
| PakHazards.WrittenFilesAreAtRisk | src/pakfile.c:2228-2279 | every non-empty file a commit wrote has its directory there, so some failed add loses it |
| PakHazards.FailedAddCanLoseDirectory | src/pakfile.c:2255-2279 | a concrete file with one entry that no longer opens |
| PakAmbiguities.FailedProbeSettles | src/pakfile.c:807-864 | a concrete file that opens as nine Quake entries or as eight Daikatana entries when told which, is refused as ambiguous when not, and is settled if one of the two probes cannot read |
| ZipNames.TableIsSafe | src/pk3file.c:55-74 | no entry of the code page table is ASCII or a surrogate |
| ZipNames.DecodeEntryName | src/pk3file.c:119-153 | the decoding loop writes the decoded name and a terminator inside the buffer, or says why not |
| ZipNames.GpFlagsForName | src/pk3file.c:1419-1436 | bit 11 is set exactly for valid UTF-8 with a byte above 0x7F |
| ZipNames.DecodedIsWellFormed | src/pk3file.c:119-153 | every decoded name is valid UTF-8 and fits the buffer |
| ZipNames.ComesBackIffUtf8 | src/pk3file.c:1419-1436 | a name comes back from a file as it was written exactly if it is valid UTF-8 |
| ZipNames.DecodingIsStable | src/pk3file.c:119-153 | reading, writing and reading again gives what the first reading gave |
| ZipNames.ExpandedKeepsAscii | src/pk3file.c:119-153 | decoding adds no control byte and no new last ASCII byte |
| ZipRecords.PutU16 | src/pk3file.c:258-261 | two bytes of the record are the field |
| ZipRecords.PutU32 | src/pk3file.c:263-268 | four bytes of the record are the field |
| ZipRecords.BuildLfh | src/pk3file.c:1444-1460 | the local header buffer holds the record of section 4.3.7 of the PKWARE APPNOTE |
| ZipRecords.BuildCdr | src/pk3file.c:1466-1489 | the central record buffer holds the record of section 4.3.12 |
| ZipRecords.BuildEocd | src/pk3file.c:1391-1402 | the end record buffer holds the record of section 4.3.16 |
| ZipFormat.MetaBack | src/pk3file.c:1444-1489 | the fields both headers share read back as written |
| ZipFormat.LfhBack | src/pk3file.c:400-430 | a written local header reads back |
| ZipFormat.CdrBack | src/pk3file.c:541-600 | a written central record reads back |
| ZipFormat.EocdBack | src/pk3file.c:326-394 | a written end record reads back |
| ZipImages.BlockAt | src/pk3file.c:1936-2262 | every member's block lies where the blocks before it end |
| ZipImages.TiledAt | src/pk3file.c:1936-2262 | every member is located at the end of the members before it |
| ZipImages.MemberPresent | src/pk3file.c:400-509 | every written member is found in place, header, name and payload |
| ZipImages.RecordBack | src/pk3file.c:541-647 | a written central record is accepted and read as its member |
| ZipImages.DirectoryBack | src/pk3file.c:709-797 | the written directory parses record by record |
| ZipImages.HeadersBack | src/pk3file.c:799-811 | and every local header agrees with it |
| ZipImages.EndFound | src/pk3file.c:277-321 | the backward search finds the written end record |
| ZipImages.EndAccepted | src/pk3file.c:326-394 | and accepts it, unless the count is 65535 |
| ZipImages.ImageLoads | src/pk3file.c:818-848 | opening a written file gives exactly the members with their names decoded, or the one refusal that names, sizes and count determine |
| ZipImages.RoundTrip | src/pk3file.c:1843-2487 | opening what was written gives the same entries in order exactly if there are fewer than 65535, all names are UTF-8 and no uncompressed size is 0xFFFFFFFF |
| ZipImages.FullCountIsRefused | src/pk3file.c:1858-1864 | 65535 entries are written and then refused with Unsupported |
| ZipHazards.FullFile | src/pk3file.c:1858-1864 | a concrete archive of 65535 entries with safe and distinct names can be written and is refused when opened |
| ZipHazards.TwoNamesBecomeOne | src/pk3file.c:119-153 | a concrete archive of two entries whose names differ and are accepted, and whose file is refused for a repeated name |
| ZipImages.ReloadedAll | src/pk3file.c:541-647 | the entries come back unchanged exactly if each of them is faithful |
| ZipImages.LooksLikeZip | src/pk3file.c:1843-2487 | a written file starts with a signature that marks a ZIP file |
| ZipMeanings.ImageMeans | src/pk3file.c:818-848 | a written file stands for the items that were written, payloads included, as far as they come back |
| ZipMeanings.ComesBackExactly | src/pk3file.c:541-647 | the items of an archive come back unchanged exactly if there are not 65535 of them, every name is UTF-8 and no size is the ZIP64 mark |
| ZipMeanings.WrittenIsZip | src/pakfile.c:669-701 | a written file is taken for a ZIP file unless the hint names another format |
| ZipLoading.ScanBuffer | src/pk3file.c:301-320 | the backward loop finds the last record whose comment ends the file |
| ZipLoading.FindEnd | src/pk3file.c:277-321 | search in the file finds what the bytes say, unless a read fails |
| ZipLoading.ValidateEocd | src/pk3file.c:326-394 | the checks on the end record, in order |
| ZipLoading.ParseRecords | src/pk3file.c:709-797 | the record loop parses the directory, skipping directory markers |
| ZipLoading.ValidateLfh | src/pk3file.c:400-509 | the checks of one local header against its record |
| ZipLoading.ValidateLfhs | src/pk3file.c:799-811 | all of them in order |
| ZipLoading.LoadDirectory | src/pk3file.c:649-812 | directory and local headers together |
| ZipLoading.ValidateNames | src/pakfile.c:176-220 | refuses exactly repeated names |
| ZipLoading.OpenFile | src/pk3file.c:818-848 | opening gives what the bytes say, or a failure of the system |
| ZipCommitting.CopyStaged | src/pk3file.c:2003-2175 | a queued source is copied only if it still has its size and checksum |
| ZipCommitting.CopyPayload | src/pk3file.c:1991-2251 | a payload is copied whole from where it is |
| ZipCommitting.WriteMember | src/pk3file.c:1970-2251 | header, name and payload extend the scratch file |
| ZipCommitting.LaidMore | src/pk3file.c:1937-2261 | one more member keeps the tiling and the other members |
| ZipCommitting.WriteDirectory | src/pk3file.c:2296-2321 | a record and a name for every entry make up the central directory |
| ZipCommitting.WholeSize | src/pk3file.c:2274-2295 | the size check accepts exactly the files whose size fits 32 bits |
| ZipCommitting.TooMuch | src/pk3file.c:1947-1968 | refusing a member that does not fit is right: the whole can not fit |
| ZipArchives.ZipArchive.CheckName | src/pakfile.c:1660-1715 | refuses long, unsafe and taken names in this order |
| ZipArchives.ZipArchive.AddMemory | src/pk3file.c:1739-1815 | queues an item that is the data with its checksum and size, compressed if that is asked for and smaller; the status is the verdict of name and size, or that of a failed call |
| ZipArchives.ZipArchive.AddFile | src/pk3file.c:1583-1737 | the same for what a source file holds, read at once or remembered; a missing source is refused |
| ZipAdding.QueuedDenotes | src/pk3file.c:1768-1806 | compressed or stored, what is queued stands for the data and takes no more room |
| ZipAdding.Compress | src/pk3file.c:1769-1790 | asks the compressor if there is any data, and reports its failures |
| ZipAdding.ScanSource | src/pk3file.c:1604-1634 | one pass over a source finds its size and checksum, or that it passes 4 GiB, or fails for a failed call |
| ZipArchives.ZipArchive.Delete | src/pakfile.c:2423-2474 | exact status; removes the entry and keeps the others in order |
| ZipArchives.ZipArchive.Rename | src/pakfile.c:2476-2538 | exact status; only the name changes |
| ZipArchives.ZipArchive.Copy | src/pakfile.c:2540-2646 | exact status; the copy has the content of the original |
| ZipArchives.ZipArchive.CopyMembers | src/pk3file.c:1936-2261 | after the loop the members tile the scratch file, every offset is right and no 32-bit offset wraps |
| ZipArchives.ZipArchive.WriteEnd | src/pk3file.c:2263-2349 | directory and end record complete the image, or nothing fits |
| ZipArchives.ZipArchive.FinishFile | src/pk3file.c:2263-2379 | the scratch file is the whole image, or is thrown away |
| ZipArchives.ZipArchive.SwapFile | src/pk3file.c:2380-2482 | the archive is the old file or the whole new one |
| ZipArchives.ZipArchive.SavePlaces | src/pk3file.c:1896-1921 | the three places of every entry are remembered |
| ZipArchives.ZipArchive.RestorePlaces | src/pk3file.c:1827-1841 | and put back, with the directory offset |
| ZipArchives.Published | src/pk3file.c:2451-2488 | in the new file every entry stands for what it stood for |
| ZipArchives.ZipArchive.Rebuild | src/pk3file.c:1884-2487 | ends with the old file and all places restored, or with the whole new file |
| ZipArchives.ZipArchive.Commit | src/pk3file.c:1843-2487 | does nothing when clean; otherwise all or nothing, contents kept, and the new file opens as it was written; it publishes only what can be saved, that is at most 65535 entries, their headers, names twice, records and payloads with the end record within 0xFFFFFFFF bytes, and no source changed (ZipLimits.Saveable), and it fails by itself only otherwise |
| ZipOpening.OpenedIsGood | src/pk3file.c:541-812 | every entry of a file that opens can be written again and loses nothing by it |
| ZipOpening.OpenedIsSound | src/pk3file.c:818-848 | so an opened archive is in a sound state |
| ZipOpening.RewritingIsStable | src/pk3file.c:1843-2487 | opening, writing and opening again gives the same entries: one load and commit is a fixed point |
| ZipOpening.OpenZip | src/pakfile.c:227-339 | signature and hint first: the archive opened is valid, clean and what the file says; a refusal is the one that signature, hint and bytes settle, or trouble |
| ZipOpening.OpenedMeans | src/pk3file.c:818-848 | a file that opens stands for what opening gives |
| ZipOpening.LoadFile | src/pakfile.c:643-701 | reading signature and records gives what signature, hint and bytes say |
| ZipReaders.OpenEntry | src/pk3file.c:891-1175 | opening an entry gives a reader of its content, compressed or stored, staged or on disk, or fails for one of the listed reasons |
| ZipReaders.OpenStaged | src/pk3file.c:919-1083 | a staged entry is read from memory or from its source file, and unpacked |
| ZipReaders.OpenDeflated | src/pk3file.c:1085-1174 | a compressed entry on disk is read and unpacked |
| ZipReaders.Unpack | src/pk3file.c:1141-1174 | a compressed payload is delivered unpacked, or refused exactly if it does not make as many bytes as it says |
| ZipReaders.DeliversDenoted | src/pk3file.c:891-1229 | an entry that stands for some content delivers that content |
| ZipReaders.ReadBack | src/pk3file.c:891-1229 | an entry that stands for data is read back as that data; unless a call fails, it is refused exactly if it is above the cap |
| ZipRoundTrips.AddAndRead | src/pk3file.c:1739-1815 | bytes that have just been added to a ZIP archive are read back identical, compressed or not; unless a call fails, the status is the verdict on the add and then on the cap |
| ZipRoundTrips.CommitAndRead | src/pk3file.c:1843-2487 | and after a commit |
| ZipClosing.CommitNow | src/pk3file.c:1843-2487 | a commit leads from the moment before it to the one after it as every command of a run has to: at the moments in between the file is the old one or the whole new one; only one during which a call fails can lose the handle |
| ZipClosing.CloseZip | src/pakfile.c:472-515 | closing commits what is pending and leads on as any commit, moments in between included, also if it fails; on success the file stands for the archive; without a failed call it fails only if there is something to commit and no handle, it is too large, has too many entries or a source changed |
| ZipRoundTrips.ReopenAndRead | src/pk3file.c:818-848 | and after closing and opening again; unless a call fails or closing does, it is refused exactly if the items do not come back or the entry is above the default cap |
| ZipRuns.Step | src/pakfile.c:1787-3077 | every command on a ZIP archive leads from the moment before it to the one after it: the archive stays valid and sound, its list becomes what the reference list does if the command succeeds and stays otherwise, the status is the one that the moment before settles or, if a call fails, a fault or one with its own reason, only a commit changes the file, as a whole, and the archive is as open as before |
| ZipRuns.Run | src/pk3file.c:1583-2487 | for all sequences of commands with failures anywhere there is a course of moments, from the one the archive was in to the one it is in, each led on by its command as Step says; exactly as many commands are excused by a failed call as met one, and each such excuse covers that command alone |
| ZipCourses.Replayed | src/pk3file.c:1583-2487 | along every course the archive holds, after each command, the replay on the reference list of the commands that succeeded |
| ZipCourses.OpenUntil | src/pk3file.c:2380-2487 | an archive that is open stays so until a commit during which a call fails, and one that is not never becomes so |
| ZipCourses.SafeAlways | src/pk3file.c:1843-2487 | at every moment of every course, whatever fails, the file is the one from before the command under way or already the new one, which stands for the archive after that command |
| ZipCourses.Versioned | src/pk3file.c:1843-2487 | the file is at every moment of every course one of a growing list of whole versions, each of which is the file after one of the commands and stands for what the archive held then |
| ZipSessions.Session | src/pakfile.c:227-515 | the same session theorem for a ZIP file: opening, any commands and closing; every status, also that of closing, is the one its moment settles unless a call failed during it; if closing succeeds the file stands for the replay of the successful commands on what it stood for, and if it fails it does so or is the file from before closing |
| DkGrammar.AcceptedExactly | src/dk_codec.c:72-172 | the decoder accepts exactly the streams made of literals of 1 to 64 bytes, zero runs and byte runs of 2 to 65, and repetitions of 2 to 63 bytes from 2 to 257 bytes back within the output, ended by 255 or the end of input, that fill the buffer; opcode 254, cut-off operands and repetitions from before the start are in no such stream |
| DkGrammar.SaidIsMeant | src/dk_codec.c:84-163 | a stream that says certain opcodes produces what they stand for: bytes spelled out, zeros, one byte repeated, or bytes equal to those a distance before |
| DkGrammar.MeantIsSaid | src/dk_codec.c:84-163 | every stream that decodes says a sequence of such opcodes |
| DkGrammar.LongestRuns | src/dk_codec.c:107-125 | 127 stands for 65 zeros and 191 for 65 times its byte |
| DkGrammar.ChoosesTheBest | src/dk_codec.c:286-308 | the encoder uses a token exactly if one is on offer, and none on offer is preferred to the one used; what is on offer and what is preferred is told of the input alone |
| Crc32.CheckValue | src/common.c:14-91 | the checksum of the digits 1 to 9 is 0xCBF43926, the published check value of CRC-32 |
| NameRules.SafeExactly | src/pakfile.c:3688-3822 | a name passes exactly if each of its segments between slashes is not empty, has no control byte and no colon, does not end in a dot or a space, and is not a device name, with or without an extension |
| NameRules.CompressibleExactly | src/pakfile.c:1629-1655 | the packed names are those that end in .tga, .bmp, .wal, .pcx or .bsp, in either case |
| PakOnDisk.OpensExactly | src/pakfile.c:643-1038 | which files open under the name of a format, in offsets and lengths, and with which status the others are refused; the rows say what the bytes at their places say, and the payload end is the end of the last payload |
| PakOnDisk.ClassifyIs | src/pakfile.c:670-805 | the first four bytes and the hint settle the format, or the status of the refusal |
| PakOnDisk.WithoutHintExactly | src/pakfile.c:807-864 | a file opens without a hint as the format of its tag, where a PACK file is Daikatana, Quake or ambiguous by which of the two row layouts its bytes fit |
| PakOnDisk.WrittenAsDescribed | src/pakfile.c:3824-4034 | what a commit writes has tag, numbers and names at the places that the formats give them |
| PakOnDisk.PayloadEndIs | src/pakfile.c:877-999 | new payloads go behind the furthest end of a payload in the directory, or behind the header |
| PakLimits.TooFarExactly | src/pakfile.c:3989-3994 | a directory is refused exactly if there are rows and the payload end plus their number times the row width passes 0xFFFFFFFF |
| PakLimits.TrustedExactly | src/pakfile.c:3485-3565 | a rebuild refuses a row of a sound archive exactly if it has a source file that no longer has the size or the checksum it had |
| PakArchives.DecidedRebuild | src/pakfile.c:2692-3021 | a rebuild that nothing disturbs succeeds exactly if there is room for one copy of every payload and the directory and no source has changed |
| PakArchives.NotWithoutReason | src/pakfile.c:2692-3021 | also when a call fails, a rebuild ends with LimitError or FormatError only if the payloads, each counted by itself, have no room, or a source has changed |
| PakAdmission.LongestNameFits | src/pakfile.c:1660-1688 | a name may be as long as the field on disk, and outside WADs the field must still hold a zero |
| PakAdmission.NameVerdict | src/pakfile.c:1675-1718 | a name is refused as longer than 55, 119 or 8 bytes by format, as unsafe, or outside WADs as taken, in this order, and for no other reason |
| PakAdmission.PackedExactly | src/pakfile.c:2147-2183 | what is packed: Daikatana entries with one of five extensions whose worst case fits 32 bits and that get smaller by it |
| PakAdmission.AddedExactly | src/pakfile.c:2111-2293 | bytes are added exactly if the archive is open and takes the name, and the payload as stored has room below 4 GiB |
| CodePage.TableIsCodePage | src/pk3file.c:55-74 | the table has the code points of the 128 characters of code page 437, written out |
| CodePage.DecodesCharacter | src/pk3file.c:78-117 | a byte of a name becomes the UTF-8 of its character in code page 437 |
| CodePage.ExpandsInOrder | src/pk3file.c:119-157 | a name in code page 437 is read byte by byte, in order |
| ZipOnDisk.EndFoundExactly | src/pk3file.c:277-324 | the end record is the last signature whose comment length reaches exactly the end of the file |
| ZipOnDisk.EndIs | src/pk3file.c:326-398 | the end record is accepted or refused by the numbers at its places, in this order |
| ZipOnDisk.RecordIs | src/pk3file.c:541-647 | so is a central directory record, extra field and comment of any length included |
| ZipOnDisk.LocalIs | src/pk3file.c:400-539 | so is a local header, and the payload lies behind its name and its extra field |
| ZipOnDisk.ZipOpensExactly | src/pk3file.c:818-852 | a file opens exactly as its last end record, the records in its directory and their local headers say, byte by byte |
| ZipOnDisk.TagDecides | src/pakfile.c:670-805 | only a file that begins with a local header or an end record is taken for a ZIP file, and only if the hint does not name another format |
| ZipForeign.OpensWhatIsThere | src/pk3file.c:277-852 | opening undoes every writer: entries filed in order, with extra fields, comments and gaps of any size, open with their names read and their payloads where the local headers put them |
| ZipWrittenOnDisk.LocalHeaderSays | src/pk3file.c:1444-1464 | the fields of a local header that is written, by their places: version 2.0, flags, method, midnight on the first of January 1980, checksum, sizes, length of the name, no extra field |
| ZipWrittenOnDisk.RecordSays | src/pk3file.c:1466-1490 | the same of a central directory record |
| ZipWrittenOnDisk.EndSays | src/pk3file.c:1391-1417 | the same of the end record |
| ZipWrittenOnDisk.FlagsExactly | src/pk3file.c:1419-1442 | bit 11 is the only flag ever set, for names that are UTF-8 and not ASCII |
| ZipLimits.HopelessExactly | src/pk3file.c:1843-2295 | a commit fails by itself exactly if there are more than 65535 entries, the file would pass 0xFFFFFFFF bytes, or a source has changed |
| ZipAdmission.NameVerdict | src/pakfile.c:1675-1718 | a name is refused as longer than 255 bytes, as unsafe, or as taken, in this order, and for no other reason |
| ZipAdmission.AddedExactly | src/pk3file.c:1739-1825 | bytes are added exactly if the archive is open, takes the name, and the size can be said in 32 bits |
| ZipAdmission.FindsTheFirst | src/pakfile.c:2423-2474 | the entry that is removed, renamed or copied is the first one of the name |
| ZipAdding.QueuedExactly | src/pk3file.c:1739-1825 | an add is compressed exactly if that is asked for and makes the data smaller, and records checksum and both sizes |

## Left out

- Buffered output: a write is in the file when it returns, and closing a file never changes its bytes, so a failed close loses nothing that had been written.
- Null arguments, path-length limits, error records and messages, memory ownership and freeing.
- Locking, symbolic-link checks and the choice of temporary names: calls that may fail, or give a name not in use.
- Changes to files by other programs during a call; between calls the files may differ only in what the model itself did.
- Entry names with a zero byte in them: names are C strings in the source.
- Name normalization, listing, extraction, verification and the command line.
- Creating ZIP archives: only archives that exist are modelled; a commit onto the temporary file of a new one takes the same steps.
- The branch of the ZIP commit for adds without a rebuild: every change to a ZIP archive asks for a rebuild, so it is never reached.
- The choice between the labels PK3 and PK4, which follows the file's extension.
- The CRC-32 table is held as sixteen rows of sixteen, which is the same table.
- Relinking the list during a rebuild: the order never changes, so the model keeps the links.
- Wrap-around of the 64-bit sums in the size checks: lengths are unbounded here, and in the source far below 64 bits.
- Staged sources are not claimed to be unchanged when their checksum is: the commit compares size and checksum, and so does the model.
- DEFLATE itself: a compressor and its decompressor are parameters of an archive, related by `Deflate.Lossless`.
- The checks on the arguments of the calls that set the compression method and the cap on unpacked sizes; archives have any of either.
- PakArchives.Archive.AddFile: leaves out adding an archive to itself, where a plain add reads what it has just written, and a staged one is lost if a commit replaces the file but cannot open it again; a missing or irregular source may be refused as unsafe or as a failed open, because which check notices it is up to the system.
- PakRuns.Step: likewise takes no command that adds an archive to itself; adding a ZIP archive to itself is covered.
- PakRuns.Turn: likewise.
- PakRuns.Run: likewise.
- PakSessions.Session: likewise.
- ZipArchives.ZipArchive.Delete: the entries of a ZIP archive are a sequence field that the methods reassign, so links, head and tail are not captured; for PAK-class archives they are.
- ZipArchives.ZipArchive.Rename: the same.
- ZipArchives.ZipArchive.Copy: the same.
