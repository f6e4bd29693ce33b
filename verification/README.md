# kpidash: a Dafny model

A Dafny model of the self-contained algorithms of the kpidash dashboard, with proofs of what they
promise. `dafny verify dfyconfig.toml` checks all of it.

The core is the **admitted-hosts file**, the dashboard's only memory across restarts:

- `AdmittedFormat.dfy` says what a whole file means (its lines, its sections, its names) and what is
  written for two host lists. It does not say how the file is read.
- `AdmittedReader.dfy` is the reader as it is: `fgets` into a 66-byte buffer (`Stdio.dfy`), in-place
  cutting of line ends, discarding of tails. It is proved equal to the whole-file meaning for every
  byte string, NUL bytes included.
- `AdmittedLaws.dfy` proves the format's laws: exact round trips, normal form, and which damage stays local.
  `AdmittedLines.dfy` says line by line, in plain terms, what each shape of line means.
- `CrashDisk.dfy` is a disk that can lose power. A file's bytes are certain only after `fsync`, and
  any directory since start-up may be the one that survives, because nothing syncs the directory.
  Every call may fail. `AdmittedWriter.dfy` is the save on that disk.
- `AdmittedSets.dfy` is the two sets in memory and their flags. `Lifecycle.dfy` puts polls, failed
  saves, kills in the middle of a save, restarts and power losses into one transition system;
  `PowerLosses.dfy` says exactly when a power loss can take names away, and `Freshness.dfy` exactly
  when the file is up to date. `Dashboard.dfy` is the poll callback and start-up, whose methods are
  proved to be steps of that system.

Around it stand the screenshot encoder (`Bmp.dfy`) with an independent decoder (`BmpDecoder.dfy`),
the missing-glyph log filter (`LogFilter.dfy`), UTF-8 and the icon cache (`Utf8.dfy`, `Icons.dfy`),
the fortune widget (`Fortune.dfy`) and the host-list tokenizer (`HostList.dfy`). `Sequences.dfy`,
`Text.dfy` and `BitOps.dfy` hold the shared vocabulary.

Classes, arrays and loops appear where the C code has static state, buffers and loops. A character
stands for one byte of text, and a C string is a `string` without NUL. Machine arithmetic is written
out: 32-bit sizes wrap, and the shifts, masks and ORs of the code are operators defined bit by bit,
which lemmas turn into arithmetic. A call whose outcome the program does not choose (`fopen`, `fwrite`, `fsync`,
`rename`, a run of `fortune`, the clock) is a nondeterministic method or a parameter.

## Where the code and its comments disagree

The model follows the code. Each point has a lemma with a concrete input and one with the exact condition.

- `src/admitted.h` says that mangled lines are skipped individually. A short line with a NUL byte
  also loses the line after it (`NulSwallowsNextLine`), and a last line without a newline is cut at
  its NUL and read as a host (`MangledTailIsRead`). `HarmlessExactly` and `HarmlessTailExactly` say
  which lines do no harm, `AlignedExactly` where.
- The file does not always hold the in-memory sets: the registry keeps names that the file refuses
  (`UpperCaseHostIsNotPersisted`). `SavedPollPersistsAll` gives the condition.
- `src/main.c` says that the steady state writes nothing. With a full network set and one more live
  host every poll rewrites the same bytes (`FullSetRewritesEveryPoll`, `FullSetRun`).
  `Dashboard.Panel.TimerPoll` says exactly which polls touch the disk.
- A successful save is not final: the directory is not synced, so a power loss may bring back an
  earlier whole file (`SavedHostCanBeLost`). `PowerLossLosesExactly` gives the condition.
- CRLF is tolerated except behind a header with a name of 62 characters (`FullHeaderNeedsLf`); `CrLfLineExactly`
  and `CrLfFile` give the condition.
- The bitmap's size fields are wrong from 4 GiB on (`HugePictureWraps`, `SizeFieldExactly`); its pixels decode anyway.

## Model

| member | source | states |
|---|---|---|
| Stdio.InputFile.Fgets | src/admitted.c:73-75 | the read primitive: takes the first line, the unterminated rest or a bufferful, whichever is shortest; raises the end-of-file flag exactly when it stops short of both a newline and the buffer's room |
| AdmittedReader.ValidHostname | src/admitted.c:11-26 | true exactly for 1 to 63 characters out of a to z, 0 to 9, hyphen and dot; null and empty are refused |
| AdmittedFormat.HostnameExactly | src/admitted.c:11-26 | what the format calls a hostname is exactly that |
| AdmittedFormat.HeaderExactly | src/admitted.c:38-45 | what it calls a header is exactly `[name]` with a name of 1 to 63 characters, and that name is the section |
| AdmittedReader.SectionHeader | src/admitted.c:38-45 | recognises exactly the `[name]` lines with a name of 1 to 63 characters, stores the name, and leaves the open section alone otherwise |
| AdmittedReader.FetchLine | src/admitted.c:73-91 | one chunk of the stream is one line of the file, dropped whole when over-long or cut by a NUL, and kept otherwise, also when it is the unterminated last one |
| AdmittedReader.ReadLine | src/admitted.c:73-96 | the same with one trailing CR removed |
| AdmittedLines.CrLfLine | src/admitted.c:73-93 | a line of less than 64 characters ending in CRLF is kept without both |
| AdmittedLines.LfLine | src/admitted.c:73-93 | a line of at most 64 characters ending in LF alone is kept without it |
| AdmittedLines.LastLineAlone | src/admitted.c:73-93 | the last line is kept the same way without an LF |
| AdmittedLines.CrLfFile | src/admitted.c:90-93 | turning every LF of a file into CRLF changes no load, unless a header has a name of 62 characters |
| AdmittedLines.CrLfLineExactly | src/admitted.c:80-93 | for one line: its ending never matters if and only if it is not a header of 64 characters |
| AdmittedLines.FullHeaderNeedsLf | src/admitted.c:80-93 | the concrete failure: with CRLF such a header is one character too long and is dropped, and its names go to the section before |
| AdmittedReader.TakeLine | src/admitted.c:98-113 | a header only switches the section; any other line adds at most one new valid name of the wanted section and touches no other slot |
| AdmittedReader.ReadTurn | src/admitted.c:73-113 | one turn of the loop keeps the equation of the read: the names found and the lines to come make up the whole file's section; false only at its end |
| AdmittedReader.ReadSection | src/admitted.c:64-113 | the chunked loop over a cursor and an end-of-file flag computes the whole-file meaning: the first `max` distinct valid names of the section, for every byte string |
| AdmittedReader.LoadSection | src/admitted.c:51-117 | the loader returns exactly that, or 0 for a bad argument or an unreadable file, and never writes past its result |
| AdmittedLaws.HostnameIsNotHeader | src/admitted.c:38-45 | no valid hostname can be taken for a section header |
| AdmittedLaws.SaveThenLoad | src/admitted.c:141-185 | loading a saved file returns, for either section and any limit, exactly that list's distinct valid names in order, and nothing for any other section |
| AdmittedLaws.LoadIsNormalForm | src/admitted.c:73-113 | for every file: at most `max` names, valid, distinct, in order of first appearance, and none missed unless the result is full |
| AdmittedLaws.ResaveIsStable | src/admitted.c:141-158 | saving what both loads of any file return, loading that and saving again gives the same lists and the same bytes |
| AdmittedLines.SavedTextIs | src/admitted.c:141-181 | two lists of distinct hosts are written in their order, the first 16 of each, a line each, with `[net]` between them when the second is not empty |
| AdmittedLaws.TopSection | src/admitted.c:70-101 | the headerless section is exactly what precedes the first recognised header |
| AdmittedLines.SectionOf | src/admitted.c:95-99 | the lines behind a header, up to the next, belong to the section of its name and to no other |
| AdmittedLaws.OverLongLine | src/admitted.c:80-88 | an over-long line contributes nothing, whatever its text: its tail is no line and it switches no section |
| AdmittedLaws.NulSwallowsNextLine | src/admitted.c:74-88 | a short line with a NUL byte takes the following line down with it |
| AdmittedLaws.HarmlessExactly | src/admitted.h:55-58 | inserting a line where a line starts changes no load if and only if it is over-long, or has no NUL and is neither a header nor a hostname once a CR is stripped |
| AdmittedLaws.NulFreeLinesAligned | src/admitted.c:73-88 | after whole lines without a NUL byte a line starts |
| AdmittedLaws.LineAfterOpen | src/admitted.c:74-88 | where no line starts, behind a line whose NUL hides its newline, the next line is dropped whatever it is |
| AdmittedLaws.AlignedExactly | src/admitted.c:73-113 | after given whole lines no harmless insertion changes a load if and only if a line starts there, as long as one more name is possible |
| AdmittedLaws.HarmlessTailExactly | src/admitted.c:73-91 | appending an unterminated last line changes no load if and only if it is empty, over-long, or no hostname when cut at its first NUL |
| AdmittedLaws.MangledTailIsRead | src/admitted.c:73-91 | the concrete failure: a last line with a NUL byte is neither skipped nor swallowed but cut, and read as another host |
| AdmittedLaws.NulFreeFile | src/admitted.h:55-58 | for NUL-free files the reader follows the documented rule, each line on its own |
| Sequences.DedupIsFirstOccurrences | src/admitted.c:28-34 | the collapsed list holds each element once, ordered by first appearance |
| Sequences.FirstOccurrencesUnique | src/admitted.c:28-34 | that description leaves no choice: two lists that meet it are equal |
| AdmittedWriter.WriteNames | src/admitted.c:141-158 | prints exactly the first 16 distinct valid names, one per line, or reports a failed call |
| AdmittedWriter.WriteSections | src/admitted.c:177-181 | prints the whole file: the hosts, then `[net]` and its names when that list is not empty |
| AdmittedWriter.MakeDurable | src/admitted.c:183-188 | on success every byte printed is in the file and survives a power loss |
| AdmittedWriter.WriteTmp | src/admitted.c:171-190 | until the rename, in every state the disk goes through, only the temporary file changed and the target reads as before, now and after a power loss |
| AdmittedWriter.Publish | src/admitted.c:198-208 | the rename of a durable file replaces the target whole; if it fails the target is untouched |
| AdmittedWriter.Save | src/admitted.c:160-209 | in every state visited, whatever fails and wherever power goes, the target holds the old bytes or the complete new ones, and what a power loss could bring back before it still can; true means replaced, and comes exactly when the arguments are good and no call failed |
| Dashboard.Panel.constructor | src/main.c:142-161 | start-up loads both sections and the two sets are what the file says |
| Dashboard.Panel.RegistryAdmit | src/registry.c:104-139 | remembers a new name when there is room, and only then sets the flag |
| Dashboard.Panel.NetObserveLive | src/netstate.c:287-290 | sets the flag for every live host not in the set, even when the full set cannot take it |
| Dashboard.Panel.SaveAdmittedIfChanged | src/main.c:42-67 | takes both flags always, saves both sets if either was up, and leaves the disk alone otherwise; true exactly when it saved without a failed call |
| Dashboard.Panel.TimerPoll | src/main.c:69-76 | one tick is one `Poll` step of the transition system, and being killed in any disk state it visits is one `CutPoll` step; it touches the disk if and only if a flag was left up, a new host published and there was room, or a live network host is not in its set |
| Dashboard.SeedNames | src/registry.c:151-168 | seeding appends the loaded names that are new and fit |
| AdmittedSets.BootRestores | src/main.c:142-161 | restarting restores exactly the two persisted lists |
| AdmittedSets.WrittenExactly | src/admitted.c:141-158 | a set of at most 16 names comes back from the file unchanged if and only if all its names are valid and distinct |
| AdmittedSets.NewHostKept | src/registry.c:104-121 | a new host for which there is room is kept under its first 63 characters and raises the flag |
| AdmittedSets.InvalidNameIsNeverPersisted | src/admitted.c:11-26 | no file, whoever wrote it, loads a name that is not a valid hostname |
| AdmittedSets.UpperCaseHostIsNotPersisted | src/registry.c:124-140 | the concrete failure: a host published in upper case is remembered in memory, and no save, now or later, brings it into the file |
| AdmittedSets.PollWritesExactly | src/main.c:37-47 | a poll raises a flag if and only if one was left up, a new host published and there was room, or a live network host is not in its set |
| AdmittedSets.FlagsMissNothing | src/registry.c:104-139 | a poll that leaves both flags down has left both sets as they were |
| Lifecycle.StepInv | src/main.c:42-76 | every step keeps: sets bounded, file within memory, and any file a power loss could bring back within the current file |
| Lifecycle.Reachable | src/main.c:42-76 | so in every run, of any length, of polls, failed saves, kills during a save, restarts and power losses |
| Lifecycle.NeverShrinks | src/admitted.h:32-35 | between any two points of a run without a power loss in between, the persisted sets only grow |
| PowerLosses.LosesExactly | src/admitted.c:169-208 | some surviving disk lacks a name of the current file if and only if some file that may be read after a power loss does |
| PowerLosses.StartMayReturn | src/admitted.c:169-208 | at any point of any run the file found when the machine last came up may come back, and any other that may holds at least its names |
| PowerLosses.PowerLossLosesExactly | src/admitted.c:169-208 | at any point of any run a power loss can take names away if and only if the file found when the machine last came up lacks a name of the current one |
| PowerLosses.SavedHostCanBeLost | src/admitted.c:198-208 | the concrete failure: a run from an empty disk in which a host is saved successfully and a power loss takes it away |
| Lifecycle.NeverPartial | src/admitted.c:169-208 | whenever power is lost, the file read next is the original one or all of what one poll saved, never a part or a mixture |
| Lifecycle.PowerLossInventsNothing | src/admitted.c:169-208 | a power loss can bring back an older file, and never names a host the current one does not |
| Freshness.SavedPollPersistsAll | src/main.c:42-58 | after a poll that saved, the file decodes to exactly the valid names of both sets, which is all of them if and only if they are all valid and distinct |
| Freshness.UnsavedPoll | src/main.c:42-66 | after a poll that did not save, the file holds all valid names if and only if it did before and the poll brought no new valid name for which there was room |
| Freshness.UpToDateExactly | src/main.c:42-66 | at any point of any run, kills, restarts and power losses included, the file holds all valid names in memory if and only if no poll since the last start or successful save brought a new one for which there was room |
| Freshness.BehindOnlyByFailure | src/main.c:59-62 | in every run in which each poll that found a flag up saved, the file is up to date at every point |
| Freshness.FullSetRewritesEveryPoll | src/netstate.c:217-224 | in every run, once the network set is full and polls bring only known hosts and a live unknown one, every poll raises a flag, the sets stay, and each successful save writes the same bytes, against the comment that the steady state writes nothing |
| Freshness.FullSetRun | src/netstate.c:217-224 | such runs exist at every length: from a file with 16 network names, with a new file of the same bytes at every poll |
| Freshness.FailedSaveIsNotRetried | src/main.c:59-62 | after a failed save no number of polls that bring nothing new changes memory or disk |
| Bmp.Bytes32 | src/bmp_write.c:14-19 | the shifted and masked bytes are the value's little-endian bytes |
| Bmp.Put32 | src/bmp_write.c:14-19 | the four stores write the value's little-endian bytes at their place and nothing else |
| Bmp.MakeHeader | src/bmp_write.c:25-45 | the header has every field at its place, with the sizes wrapped at 32 bits |
| BmpDecoder.HeaderConstants | src/bmp_write.c:31-45 | the bytes of the header that are the same for every picture, in numbers |
| BmpDecoder.HeaderSizes | src/bmp_write.c:31-41 | and those that hold its sizes |
| Bmp.WriteXrgb8888 | src/bmp_write.c:21-60 | true means the whole file is written and no write came up short; false means bad arguments and nothing written, or a short write and a prefix of the file written |
| Bmp.RowAt | src/bmp_write.c:49-58 | row `y` sits `h-1-y` rows into the pixel data |
| Bmp.RowsStrideApart | src/bmp_write.c:49-50 | the rows of the source are `stride` bytes apart, the first at its start |
| BmpDecoder.RoundTrip | src/bmp_write.c:25-58 | a decoder that trusts only the header finds the size and, at every pixel, exactly the source's B, G and R bytes, for every width, height and stride |
| BmpDecoder.SizeFieldExactly | src/bmp_write.c:28-37 | the file is 54 + h(3w + pad) bytes long, and the size fields say so if and only if it is below 4 GiB |
| BmpDecoder.HugePictureWraps | src/bmp_write.c:28-37 | the concrete failure: every file of 40000 by 40000 pixels decodes but understates its size |
| BmpDecoder.HugePictureExists | src/bmp_write.c:21-60 | there is such a file |
| BmpDecoder.RowsAligned | src/bmp_write.c:25-27 | every row starts on a multiple of four bytes of the pixel data and is filled up with zeros |
| BmpDecoder.OnlyColoursMatter | src/bmp_write.c:50-58 | pictures that agree on B, G and R at every pixel encode to the same bytes, whatever their strides, X bytes and padding |
| LogFilter.HexExactly | src/logfilter.c:18-26 | the hex digits are exactly 0 to 9, a to f and A to F |
| LogFilter.HexValues | src/logfilter.c:18-26 | each with its value |
| LogFilter.ParseHex | src/logfilter.c:38-53 | accepts exactly the runs of 1 to 6 hex digits, returns their value, and the 32-bit accumulator never loses a bit |
| LogFilter.ParseCodepoint | src/logfilter.c:28-54 | true exactly when the first marker is followed by such a run, with its value, which is below 2^24 |
| LogFilter.DigitShiftedIn | src/logfilter.c:48 | the shift and OR of the accumulator multiply and add, as long as no bit is shifted out |
| LogFilter.MarkerHasNoBorder | src/logfilter.c:13 | no proper end of the marker is a beginning of it |
| LogFilter.ReportsExactly | src/logfilter.c:28-54 | a line reports a codepoint if and only if it is marker-free text, the marker, 1 to 6 digits of that value, and a rest not starting with a digit |
| LogFilter.PrintThenParse | src/logfilter.c:28-54 | any codepoint below 2^24 printed in either case is parsed back, after any marker-free text and before any text that does not begin with a hex digit |
| LogFilter.MiddleDotIsParsed | src/logfilter.c:28-54 | the line that LVGL logs for a missing middle dot gives 0xB7 |
| LogFilter.Filter.Check | src/logfilter.c:56-75 | one line: the verdict and the new table, as the table and the parsed codepoint decide |
| LogFilter.TableIsFirstDistinct | src/logfilter.c:56-75 | after any trace the table is the first 64 distinct reported codepoints in order of first appearance |
| LogFilter.VerdictExactly | src/logfilter.c:56-75 | after any trace: emitted iff nothing is reported, first sighting iff the codepoint is new and fewer than 64 came before, else suppressed |
| LogFilter.EmittedOncePerCodepoint | src/logfilter.c:66-74 | a trace of any length lets at most 64 reports through, one for each codepoint in the table |
| Utf8.EncodeUtf8 | src/icons.c:42-66 | the bytes of the encoding and a terminator go into the given row, and no other row changes |
| Utf8.Bytes3 | src/icons.c:52-57 | the shifted, masked and ORed bytes of the three-byte branch are the encoding |
| Utf8.Bytes4 | src/icons.c:58-64 | so are those of the four-byte branch, for every 32-bit codepoint |
| BitOps.OrIsPlus | src/icons.c:48-62 | an OR of bits that do not overlap is an addition |
| BitOps.LowByteOfLead | src/icons.c:59 | the cast of the four-byte lead keeps four bits of the shifted codepoint, whatever the codepoint |
| Utf8.DecodeEncode | src/icons.c:42-66 | the decoder of RFC 3629 reads back every scalar value, whatever follows it |
| Utf8.EncodeDecode | src/icons.c:42-66 | whatever that decoder accepts is the encoding of the scalar value it reports |
| Utf8.EncodesExactly | src/icons.c:42-66 | among all 32-bit codepoints the encoder is right for exactly the Unicode scalar values |
| Utf8.Shortest | src/icons.c:42-66 | nothing decodes to a codepoint in fewer or other bytes than its encoding |
| Utf8.PrefixFree | src/icons.c:42-66 | no encoding is the beginning of another |
| Utf8.DecodeAllEncodeAll | src/icons.c:42-66 | decoding inverts encoding on any text of scalar values |
| Utf8.OrderAgrees | src/icons.c:42-66 | byte order of encodings is codepoint order |
| Icons.Icons.Lookup | src/icons.c:72-85 | the row returned holds the bytes of the fresh encoding of the entry's codepoint and a terminator, whatever was looked up before, and strings handed out earlier stay as they are |
| Icons.GlyphExactly | src/icons.c:72-85 | a lookup answers if and only if the index is not negative and an entry with it is among the first 64, and then with the encoding of its codepoint |
| Icons.FirstMatchDecides | src/icons.c:72-95 | the first entry with the index gives the codepoint, and the glyph if it is among the first 64 |
| Icons.NoMatch | src/icons.c:72-95 | a negative or unknown index has codepoint 0 and no glyph |
| Icons.Icons.Codepoint | src/icons.c:87-95 | the first matching entry's codepoint, or 0 |
| Icons.ShippedIsWellNumbered | src/icons.c:15-38 | the shipped table counts up from 0 and holds scalar values only |
| Icons.IconsResolve | src/icons.c:15-38 | in such a table every icon resolves, to bytes that decode to its codepoint and nothing else |
| Fortune.Measure | src/fortune.c:76-91 | the one-pass scan computes the number of lines and the length of the longest |
| Fortune.PickFont | src/fortune.c:68-97 | the first rung of the ladder whose line length and line count the text fits, or -1 |
| Fortune.SizeExactly | src/fortune.c:59-97 | the size in numbers: 36 up to 5 lines of 45 characters, 28 up to 7 of 60, 24 up to 9 of 75, 20 up to 11 of 90, else none |
| Fortune.LargestFit | src/fortune.c:59-66 | a size fits if and only if it is at most the chosen one, and a text is rejected if and only if it has more than 11 lines or a line of more than 90 characters |
| Fortune.PrefixFits | src/fortune.c:68-97 | every nonempty prefix of an accepted text is accepted, at the same or a larger size |
| Fortune.Widget.RunFortuneOrCanned | src/fortune.c:130-189 | shows the first accepted of at most ten runs with the number rejected before it, else the canned message the clock selects |
| Fortune.TakenExactly | src/fortune.c:139-155 | the text of a run is exactly what stands before the newlines at the end of its output, of its first 1023 bytes, or before its first NUL |
| Fortune.FirstShowableIsShown | src/fortune.c:137-182 | the first of ten runs whose text has a size is shown, without its newlines, at that size, with the runs before it counted |
| Fortune.OtherwiseCanned | src/fortune.c:183-189 | with no such run the canned message that the clock selects is shown at 36 points with ten rejections |
| Fortune.OneLineIsShown | src/fortune.c:152-182 | a fortune of one line is shown without its newline |
| Fortune.RotationIsDeterminate | src/fortune.c:130-189 | what a rotation shows is determined by what the runs print and by the clock |
| Fortune.Widget.TimerTick | src/fortune.c:191-199 | a tick after a push only lowers the flag; any other rotates |
| Fortune.Widget.OnPushed | src/fortune.c:221-236 | a push with text is shown at once, at its size or 20 points, and raises the flag; any other push does nothing |
| Fortune.PushIsShown | src/fortune.c:221-236 | a pushed text is shown unchanged at its size, and at 20 points when it has none |
| Fortune.StepIsDeterminate | src/fortune.c:191-236 | an event leaves one state of the widget |
| Fortune.FlagExactly | src/fortune.c:191-236 | over every interleaving the flag is up if and only if a text was pushed since the last tick |
| Fortune.TickExactly | src/fortune.c:191-199 | a tick keeps the display if a text was pushed since the tick before, and rotates otherwise |
| Fortune.PushedTextSurvivesFirstTick | src/fortune.c:191-236 | a pushed text stays on display through the first tick after it, unless another text is pushed |
| HostList.FillBuffer | src/config.c:20-24 | the buffer holds the value up to its terminator or 1023 characters, terminated |
| HostList.StrTok | src/config.c:35-36 | cuts the next nonempty comma-free token out of the buffer in place and leaves the rest as it was |
| HostList.TrimToken | src/config.c:37-41 | what is left of a token is its text without leading spaces, cut at 63 characters, without trailing spaces |
| HostList.CleanExactly | src/config.c:37-41 | for every token, the one name it stands for: what is between the spaces around it, or the first 63 characters behind the leading ones |
| HostList.ParsePieces | src/config.c:26-48 | a list that fits the buffer means the hosts its pieces stand for, in order, up to the count |
| HostList.ParsePadded | src/config.c:26-48 | hosts with any spaces around them are found as they are |
| HostList.ValueIsCut | src/config.c:20-24 | what is behind the 1023rd character does not count |
| HostList.ParseHostList | src/config.c:28-48 | the tokenizer over the mutated buffer computes the whole-string meaning of the list, and writes no slot beyond its count |
| HostList.OutputsAreHosts | src/config.c:26-48 | every host is nonempty, trimmed, free of commas, at most 63 characters, there are at most `max`, and joined again they fit the buffer |
| HostList.ParseJoined | src/config.c:26-48 | a joined list of proper hosts that fits buffer and count parses to exactly these hosts |
| HostList.ParseIsStable | src/config.c:26-48 | for every value, joining the result and parsing it again changes nothing |
| HostList.BlankMeansNoHosts | src/config.c:26-27 | a value of nothing but spaces and commas means no hosts |

## Left out

- AdmittedReader.LoadSection: an output row is a string, so what lies behind a row's terminator is not modelled; a read error in mid-file is not modelled either.
- AdmittedReader.ReadSection: the loop body is `ReadTurn`, cut into `FetchChunk`, `FetchLine`, `ChompCr` and `TakeLine`, in the order of the source.
- AdmittedWriter.Save: the parent directory is not created, and messages to stderr are not modelled; the target and the temporary file are assumed not to be hard links of one another.
- AdmittedWriter.WriteNames: the host lists are read-only and are passed as sequences.
- Lifecycle.NeverShrinks: false across a power loss, since the code does not sync the directory; `PowerLosses.PowerLossLosesExactly` says when.
- Utf8.EncodeUtf8: the bytes of each branch are computed by a helper before they are stored, in the order of the source.
- Bmp.Put32: the four bytes are computed by a helper before they are stored.
- Dashboard.Panel.RegistryAdmit: models the case of a host without a slot that has published; slots, eviction and locking are not part of this model, and a host that has a slot changes nothing here.
- Dashboard.Panel.NetObserveLive: models a host that has a column and a well-formed payload; parsing and columns are not part of this model.
- Dashboard.Panel.TimerPoll: what Redis delivers is a parameter; drawing is not modelled.
- Bmp.WriteXrgb8888: requires a width whose fourfold fits the C `int`, since the source's own comparison overflows otherwise.
- LogFilter.ParseCodepoint: a null output pointer is not modelled.
- Icons.Icons.Lookup: the pointer returned is the number of its cache row.
- Fortune.Widget.RunFortuneOrCanned: the elapsed time, the developer overlay, the Redis record and an absent widget are not modelled.
- Fortune.Widget.OnPushed: JSON parsing is not modelled; a push is its text, or none.
- HostList.ParseHostList: reading the environment is not modelled; the value is a parameter.
- The integer options and the separate priority-client parser of `src/config.c` would only add easy members.
- LVGL, DRM, hiredis, the other widgets, the font tables, `src/memstat.c` and the Python clients are not part of this model.
- The wording of the canned messages does not matter to any property here beyond which one is shown.
