# A verified model of the monitor's core algorithms

A Dafny model of the hard parts of a boot monitor for MIPS boards, with proofs. `dafny verify dfyconfig.toml`
checks everything. The model follows the code branch by branch, constants included, also where the code
disagrees with its comments or a standard; each disagreement listed below has an input and a theorem.

| files | what they model |
|---|---|
| `Machine`, `Wrappers`, `Bits`, `CStrings` | words, optional values, bits, C strings |
| `Ordering`, `RecordView`, `Qsort` | the hybrid sort of `lib/qsort.c`, down to its byte loops |
| `Strtoul`, `Printf`, `PrintParse`, `PrintLayout` | number reading and printing, that they undo each other, and what each part of a format prints |
| `PrintDeparts`, `PrintCase` | four departures of printing from the standard, each with its exact condition |
| `Srecord`, `Loader`, `SrecordSound`, `SrecordCodec`, `SrecordText` | the S-record loader, its soundness, an encoder it undoes, and what it makes of lines and files given by their characters |
| `EnvSpec`, `EnvTable`, `Env`, `EnvCodes` | environment variables: a map, the table with its flash slots that refines it, and the cause of each code |
| `SysenvLog`, `Sysenv`, `SysenvRuns`, `SysenvSlots` | the record log in flash that keeps the environment: writing, collection, restarts, and the slots that the table sees |
| `EnvOnLog` | runs of the environment table over the record log |
| `ArpCache`, `Arp`, `ArpRuns`, `ArpPackets` | the ARP cache, all interleavings of opens, polls and received frames, and the packets sent |
| `Rtc` | the time the ARP cache reads |
| `Checksum` | the Internet checksum against RFC 1071 |
| `Ping` | the production-test ping: its deadline over a wrapping counter, and its reply latch |
| `HandlerTable`, `Dispatch`, `DispatchCalls` | interrupt handler registration and dispatch, and which handlers an interrupt calls |
| `Modetty`, `ModettyTexts`, `EnvText`, `EnvTextExact` | serial settings, CPU configuration and IP addresses as text, and exactly which texts say what |

Code that changes state step by step is written as classes and methods with loops; each method is proved to
compute a specification function of its inputs and the old state, and the properties are lemmas about those
functions, over all inputs or all runs.

## How the outside is represented

- Memory for sorting is an array of bytes; a pointer `base + k * qsz` is the number k, and the byte loops that
  swap and rotate records go through addresses. Comparison is any total preorder on record contents. A record
  size of 0 is excluded: with four or more records `qst` divides by it, and with fewer the sort does nothing.
- The loader's port is a finite sequence of events (character, no character with or without a break); after its
  last event it delivers the end-of-file character. Address validation, the flash driver and the network layer's
  error codes are oracles; the validation refuses a range that wraps (`sys/sys.c:431-440`). Stored bytes go to a
  map from addresses to bytes; a write that the driver refuses may leave any memory.
- To the environment table the flash store is a map from slots to records. How it answers each write and each
  deletion is an oracle: done, refused with any content left, or done and then its records moved to other slots
  by any permutation. `SysenvSlots` shows which of these answers the real store gives. Strings hold no NUL.
  Variables that can be reset have a default value, as `remove_var` needs. The build is the little-endian one.
- The record log is an array of places of four header bytes and 124 data bytes. The flash driver is an oracle:
  a request is done and verified, or refused with any content left in the place, or in all of them for an
  erasure. The area has more places than there are indices, as on every board (`arch/include/atlas.h:143`,
  `arch/include/malta.h:148`, `arch/include/sead.h:134`).
- The ARP module gets the clock, the result of sending and the frames as inputs. What is atomic is what the code
  runs with interrupts off, a received frame, the head of a poll, and a poll's look at one entry.
- Interrupt handlers are numbers, 0 for NULL; dispatch appends to a log what is called and which EOIs are sent.
- The ping loop gets a finite list of rounds: replies, the true time at which the counter is read, the result of
  reading it; a read that fails leaves the count alone, as `SYSCON_read` does, and after the first read the count
  is an input, because nobody looks at whether it succeeded. The counter's period and its ticks
  in a millisecond are parameters: `millisec` divides the 32-bit CP0 count, while the comment at
  `net/net_appl.c:314` speaks of a period of 2^24 microseconds; the proofs cover both.

## Where the code departs from its comments or a standard

Each line names the theorem that says exactly when the code does what it should, and the input that shows it
does not always.

- `strtoul` and `strtoull` convert nothing for `0x` without a hexadecimal digit: `ConformsUnlessBarePrefix`,
  `BarePrefixConvertsNothing`.
- A precision counts the sign or prefix as digits: `PrecisionHonouredExactly`, `PrecisionShortfall`.
- A short unsigned conversion is sign-extended: `ShortUnsignedExactly`, `ShortUnsignedFails`.
- `%.0X` of 0 leaves the upper-case digits selected for later conversions: `LowerCaseExactly`, `UpperCaseLeaks`.
- `%#.0o` of 0 prints nothing: `AlternateOctalExactly`, `AlternateOctalFails`.
- The loader's table gives character 255 the digit value 0, so a communication error is never reported:
  `CommunicationErrorNeverReported`, `CommunicationErrorIsADigit`.
- Creating a variable while the store moves its records reports OK but makes no variable, and leaves a record
  without a row, which the next start finds: `SetStoresUnlessRearranged`, `LostExactly`, `RearrangedSetIsLost`,
  `LostIsStored`.
- A creation that fails in the store leaves the list of variables without its NULL end mark: the clause on
  `terminated` of `Env.Table.Set`, `RefusedCreation`.
- The answer to a flash deletion is not looked at: `DeletionMatchesExactly`, `RefusedDeletionStays`.
- The environment is unusable after a restart when its log fills the area: `AcceptedExactly`, `FillsUp`,
  `WriteAllAndReboot`.
- The environment is unusable after a restart when a write has stopped half-way: `InterruptedExactly`,
  `HeaderOnlyRefused`.
- A big-endian processor adds up other bytes than were written when the size is not a multiple of four:
  `SumsDataExactly`, `BigEndianRefuses`. No caller in the repository writes such sizes there, because `env.c`
  rounds them up (`env/env.c:796-803`).
- A garbage collection that the driver refuses loses variables, while the store stays usable:
  `RefusalLosesExactly`, `RefusedErasureForgets`.
- A received ARP frame updates only an entry that awaits it: `ReceptionAgreesExactly`, `ReplyAgreesExactly`,
  `RequesterNotAdded`.
- `NET_ARP_open` ignores a MAC address the caller gives while the entry awaits a response: `GivenPairKept`,
  `GivenPairIgnored`.
- A new ARP entry whose request or timer fails keeps the timer of the entry it replaces:
  `FailedEntryExpiresExactly`, `FailedEntryOutlives`.
- The time that `NET_gettime` counts can step back: `StepsBackExactly`, `FebruaryIsEarlier`.
- The 32-bit sum of the checksum can overflow: `ComputedExactly`, `TooManyWords`.
- A wrong echo reply that comes first shuts out the right one: `RightReplyCountsExactly`, `WrongReplyFirst`.
- The default controller handler is given the data of the default CPU handler: `OwnDataExactly`,
  `RoundsOwnData`, `ForeignData`.
- Deregistering a dead handle spoils the size of its line: `DeregisterConsistentExactly`, `DeadHandleSpoils`.
- Restoring saved handlers leaves the enable masks alone: `RestoredConsistentExactly`, `RestoreSpoils`.
- `env_modetty_string2parts` delivers whatever was on the stack for a text it cannot decode:
  `StackMattersExactly`, `StackShows`.
- `validate_cpuconfig` delivers unset local variables for the part that cannot be configured:
  `JunkMattersExactly`, `JunkShows`.

## Model

| member | source | states |
|---|---|---|
| RecordView.AddressIsScaledIndex | lib/qsort.c:122-124 | the address reached by stepping the record size at a time is base plus index times size |
| RecordView.SwapStep | lib/qsort.c:146-150 | one round of a byte exchange loop exchanges one byte of two records and touches nothing else |
| Qsort.Sorter.SwapRecords | lib/qsort.c:229-233 | the byte loop exchanges two records whatever their size; every byte outside the records is unchanged |
| RecordView.RotateStep | lib/qsort.c:163-168 | one strided round rotates one byte lane of the records h..k |
| Qsort.Sorter.RotateRecords | lib/qsort.c:163-168 | the strided byte rotation moves record k to place h and the records between up by one; all other bytes unchanged |
| Qsort.Sorter.MedianToMiddle | lib/qsort.c:217-235 | the middle record ends up as a median of first, middle and last; at most one exchange of it with the first or last happens |
| Qsort.Sorter.ScanUp | lib/qsort.c:240-241 | the scan stops at the first record above the pivot or at the pivot |
| Qsort.Sorter.ScanDown | lib/qsort.c:242-246 | the scan stops at the first record below the pivot or at the pivot |
| Qsort.Sorter.Partition | lib/qsort.c:239-274 | with a moving pivot the range becomes a permutation of itself with nothing above the pivot on its left and nothing below it on its right |
| Ordering.PartitionSeparates | lib/qsort.c:236-274 | in a partitioned range nothing up to the pivot exceeds anything from the pivot on |
| Qsort.Sorter.Qst | lib/qsort.c:198-295 | leaves a permutation in which records at least THRESH - 1 apart are in order; activations nest so little that 2 to the power nest + 1 is at most the number of records |
| Qsort.OneLevelDeeper | lib/qsort.c:284-294 | a call on the smaller side adds one level at half the size: the depth bound |
| Ordering.SentinelIsLeast | lib/qsort.c:129-140 | in an almost sorted array a least record of the first THRESH is least of all |
| Qsort.Sorter.FindLeast | lib/qsort.c:141-143 | finds a least record of the first THRESH |
| Ordering.SentinelKeepsAlmostSorted | lib/qsort.c:144-151 | bringing the sentinel to the front keeps the array almost sorted |
| Qsort.Sorter.InsertionPlace | lib/qsort.c:159-162 | the unguarded scan never passes the first record, makes at most three comparisons, and finds the place behind the last record that is not greater |
| Ordering.InsertionStep | lib/qsort.c:159-169 | one insertion lengthens the sorted prefix by one and keeps what the next insertions need |
| Qsort.Sorter.InsertionPass | lib/qsort.c:159-170 | from a least first record and almost sorted records the pass makes a sorted permutation |
| Qsort.Sorter.Run | lib/qsort.c:119-170 | quicksort, sentinel and insertion pass together sort the records |
| Qsort.Sort | lib/qsort.c:112-171 | for every array and total preorder the records end up as an ordered permutation, bytes outside are unchanged, and nesting is at most log2 of the number of records |
| Strtoul.CutoffIsOverflow | lib/strtoul.c:99-114 | the test against cutoff and cutlim is exactly the overflow test |
| Strtoul.AccumulateDigit | lib/strtoul.c:110-120 | one round keeps the exact value while it fits and the maximum once it does not, without wrapping |
| Strtoul.Strtoul | lib/strtoul.c:64-127 | value, end position and ERANGE are those of the longest digit run: exact when it fits, negated modulo the word size after a minus sign, otherwise the maximum |
| Strtoul.Strtoull | lib/strtoull.c:66-143 | the same in 64 bits with the constant cutoffs for bases 8, 10 and 16 |
| Strtoul.ReadPrefix | lib/strtoul.c:79-97 | white space, sign and base prefix are skipped as the base asks |
| Strtoul.ConformsUnlessBarePrefix | lib/strtoul.c:90-126 | the code gives the result of section 7.20.1.4 of ISO/IEC 9899:1999 exactly on the texts that have no 0x without a hexadecimal digit |
| Strtoul.BarePrefixConvertsNothing | lib/strtoul.c:90-126 | counterexample: 0x converts nothing, where the standard reads 0 |
| Strtoul.ValueInWord | lib/strtoul.c:121-126 | a magnitude that fits is the value, or what completes it to the word size after a minus sign; otherwise the value is the largest with a range error |
| CStrings.WhiteSpace | lib/ctype.c:73-96 | which characters are white space |
| CStrings.DigitCharacters | lib/strtoul.c:100-110 | which characters are digits of which value |
| Printf.DigitsFitBuffer | lib/doprntx.c:295-304 | the digits of a word with the octal zero never underrun the buffer |
| Printf.Printer.Generate | lib/doprntx.c:295-305 | the digits written backwards into the buffer are the numeral of the value |
| Printf.FieldLength | lib/doprntx.c:322-364 | a field is max(width, realsz) characters long |
| Printf.Printer.PutField | lib/doprntx.c:326-364 | padding, prefix, zeros and body go out in this order and the size returned is that of the text |
| Printf.Printer.GatherSpec | lib/doprntx.c:127-197 | the flag machine gathers flags, width, precision and arguments and stops at the conversion character |
| Printf.Printer.PutConversion | lib/doprntx.c:198-371 | one conversion emits its piece, counts its characters and takes its arguments; what the piece is say PrintLayout.TextPart and NumberPart |
| Printf.Printer.Doprntx | lib/doprntx.c:89-374 | for every format and argument list the output is the rendered text, the result its exact length (newline counts two), and %n stores the count so far |
| PrintLayout.NoConversion | lib/doprntx.c:115-126 | a format without a percent sign is printed as it is, each newline as carriage return and line feed |
| PrintLayout.SpecGathered | lib/doprntx.c:127-197 | what the flags, width and precision written in a format mean, wherever each flag stands |
| PrintLayout.StarTaken | lib/doprntx.c:140-170 | a width or precision from an argument; a negative width adjusts to the left, a negative precision is none |
| PrintLayout.TextPart | lib/doprntx.c:198-262 | %s prints the string of its argument, (null) for 0, no more than the precision, on its side of blanks or zeros up to the width; %c the low byte; %n stores the count; any other character prints itself; and the next argument follows |
| PrintLayout.StringPrinted | lib/doprntx.c:240-262 | %s alone prints the string of its argument |
| PrintLayout.NumberLaidOut | lib/doprntx.c:203-350 | every number conversion prints blanks, sign or prefix, zeros, the numeral and blanks, each as many as flags, width and precision ask |
| PrintLayout.NumberPart | lib/doprntx.c:203-350 | the same for a conversion anywhere in a format, with the argument that is its turn |
| PrintParse.DigitsDenote | lib/doprntx.c:296-300 | the digits generated denote the number they were generated from |
| PrintParse.ComposedParses | lib/strtoul.c:78-126 | blanks, sign or prefix and digits read as the value of the digits, up to their end |
| PrintParse.NumberReadsBack | lib/doprntx.c:287-364 | a number field with any flags, width and precision reads back as its value |
| PrintParse.ConversionReadsBack | lib/doprntx.c:203-305 | whatever the flags, a printed word reads back as itself and all text is consumed unless padded on the right |
| PrintParse.SingleReadsBack | lib/doprntx.c:117-305 | for every format that is one number conversion: printing and strtoul undo each other |
| PrintParse.EveryWordReadsBack | lib/doprntx.c:203-305 | %u %o %x %X %d %08x %#x and %#o of any word read back completely and without error in the matching base and in base 0 |
| PrintDeparts.PrecisionDigits | lib/doprntx.c:287-350 | how many digits a conversion prints behind blanks and sign or prefix for a precision |
| PrintDeparts.PrecisionHonouredExactly | lib/doprntx.c:287-350 | a printed number has at least as many digits as its precision exactly when it has no sign or prefix or its numeral is that long anyway |
| PrintDeparts.PrecisionShortfall | lib/doprntx.c:349-350 | counterexample: %.3d of -12 prints -12 |
| PrintDeparts.ShortUnsignedExactly | lib/doprntx.c:68-72 | what a short unsigned, octal or hexadecimal conversion prints reads back as the low 16 bits exactly when their sign bit is clear |
| PrintDeparts.ShortUnsignedFails | lib/doprntx.c:68-72 | counterexample: %hu of 0x8000 prints 4294934528 |
| PrintDeparts.AlternateOctalExactly | lib/doprntx.c:287-304 | an alternate octal conversion prints a number that starts with 0 exactly when the value or the precision is not 0 |
| PrintDeparts.AlternateOctalFails | lib/doprntx.c:287-304 | counterexample: %#.0o of 0 prints nothing |
| PrintCase.LeavesUpperExactly | lib/doprntx.c:270-304 | a conversion leaves the upper-case digits selected exactly when it is %X of zero with precision zero |
| PrintCase.ConvertCase | lib/doprntx.c:198-364 | the selected case changes nothing but letters, and shows exactly in %x and %p of numbers with letters |
| PrintCase.LowerCaseExactly | lib/doprntx.c:115-304 | for every format and argument list the output is that of a formatter that selects lower case before each conversion exactly when no upper-case digits left behind show |
| PrintCase.LowerCaseWithoutZeroX | lib/doprntx.c:296-304 | a format without %X of zero with precision zero prints every number in the case it asks for |
| PrintCase.NextHexIsUpper | lib/doprntx.c:296-304 | behind such a conversion the next %x prints the upper-case field, which is wrong exactly when the number has letters |
| PrintCase.UpperCaseLeaks | lib/doprntx.c:296-304 | counterexample: %.0X of 0 and %x of 0xab print AB, not ab |
| PrintParse.DecimalReadsBack | lib/strtoul.c:78-126 | a %d text followed by a comma, dot or blank reads back as the word, up to there |
| Srecord.ReadGivesLine | load/loader.c:793-919 | a line read without error is well formed and fits the line buffer |
| Loader.Loader.ReadLine | load/loader.c:793-919 | the buffer holds the next line that is not empty; line_number is one plus the line feeds before it |
| Loader.Loader.ConvertLine | load/loader.c:610-651 | the digit pairs go to the data buffer in range, with their sum, or the first error is found |
| Loader.Loader.RestIsBlank | load/loader.c:623-633 | the rest of the line is white space up to its end |
| Loader.Loader.TakeAddress | load/loader.c:680-710 | the address is the big-endian number of the two, three or four address bytes |
| Loader.Loader.CheckRecord | load/loader.c:657-710 | count, length and checksum are checked in this order and the address is taken |
| Loader.Loader.DecodeLine | load/loader.c:588-710 | the line is decoded to the record or error it means, as SrecordText.LineMeans says by its characters |
| Loader.Loader.StoreData | load/loader.c:719-746 | the range widens, the services are asked, and the bytes are stored at their address; a refused write may leave anything |
| Loader.Loader.DoLine | load/loader.c:588-770 | one line is done as its meaning says |
| Loader.Loader.NextLine | load/loader.c:774-782 | reads the line after the present one, unless that was the last |
| Loader.Loader.LoadSrec | load/loader.c:571-787 | the loop over lines computes the load of the whole input from its first line |
| Loader.Loader.LoaderImage | load/loader.c:383-518 | the command computes the load of the input: completion code (an unsupported port and an error of the network layer included), entry, range and memory |
| SrecordSound.DecodedRecord | load/loader.c:605-710 | an accepted data or termination line: its pairs are count, address, data and checksum, the count matches and the bytes sum to 0xff modulo 256 |
| SrecordSound.LoadSound | load/loader.c:571-787 | after a successful load memory holds exactly the bytes of the accepted data records, later ones on top; the range is their least start and greatest end |
| SrecordSound.LoadCommandSound | load/loader.c:383-518 | the same for the whole command |
| SrecordSound.CommunicationErrorNeverReported | load/loader.c:852-857 | no input makes readline report a communication error |
| SrecordSound.CommunicationErrorIsADigit | load/loader.c:835-857 | counterexample: a communication error is stored in the line and counts as the digit 0 |
| SrecordCodec.LineDecodes | load/loader.c:588-710 | decoding a line undoes encoding a record |
| SrecordCodec.ReadsLine | load/loader.c:819-912 | reading stores the characters of a line and stops behind its end |
| SrecordCodec.LoadsFile | load/loader.c:571-788 | loading from any record of an encoded file on stores the rest of the image |
| SrecordCodec.LoadUndoesEncoding | load/loader.c:383-919 | for every image in S1/S2/S3 records with a termination record, with LF, CR or CRLF ends, the load succeeds with exactly the image, entry address and range |
| SrecordText.CharacterKinds | load/loader.c:835-857 | which characters are digits, and of what value, which are blanks, and which are neither |
| SrecordText.LineMeans | load/loader.c:588-710 | the meaning of a line of digits by its type character: data, end, skipped whatever its digits, or the error of its first fault |
| SrecordText.KindsAccepted | load/loader.c:588-603 | a line that is not refused has type 0, 1, 2, 3, 5, 7, 8 or 9; exactly 0 and 5 are skipped |
| SrecordText.FirstOther | load/loader.c:610-651 | the first character that is no digit decides between an illegal character, a wrong format and the end of the line |
| SrecordText.SkippedLinesChangeNothing | load/loader.c:383-788 | a file of data records, digits in either case, with lines of types 0 and 5 anywhere between them, their count and checksum right or wrong, loads to exactly the image, entry and range of its records |
| SrecordText.LoadsLikeRecords | load/loader.c:383-788 | so it loads exactly as the file of its records alone |
| SrecordText.MissingEnd | load/loader.c:771-783 | without a termination record the image is there and the code says so |
| SrecordText.BadLineStops | load/loader.c:588-783 | a line that is refused ends the load with its error, behind the image so far |
| SrecordText.RefusedRecordStops | load/loader.c:719-746 | a range that wraps is an overflow; otherwise the code is that of the service that refuses, with the range and the memory it leaves |
| SrecordText.BreakStops | load/loader.c:819-870 | the interrupt character on a terminal, or a break, ends the load behind the image so far |
| SrecordText.DotBreaks | load/loader.c:571-587 | over the network a break is asked for at every 512th line and nowhere else |
| SrecordText.InterruptKept | load/loader.c:840-870 | over the network the interrupt character is one as any other |
| SrecordText.LongLineStops | load/loader.c:870-905 | reading stops at the 201st character of a line |
| SrecordText.LoadRefused | load/loader.c:383-440 | the codes for a port or a first line that is not known and for errors of the network layer |
| EnvTable.NotAllTaken | env/env.c:808-832 | the search for a free slot always succeeds (pigeonhole) |
| EnvTable.RowSlot | env/env.c:781 | in a matching table a row's slot is the one that holds its name |
| EnvTable.NewSlot | env/env.c:808-832 | in a matching table the free slot found is the lowest that holds nothing |
| EnvTable.EntriesKeepMap | env/env.c:901-928 | rows whose slots have changed stand for the same map |
| EnvTable.MoveBacks | env/env.c:901-928 | after a permutation of the slots and re-reading, every row's slot holds its name and value, and no other slot is in use |
| EnvTable.RereadMatches | env/env.c:901-928 | when the records of a matching table have moved, reading all slots again makes every row's slot hold its name and value |
| EnvTable.BackedOnce | env/env.c:767-855 | the rows determine the store that matches them |
| EnvTable.LostIsStored | env/env.c:643-657 | a variable whose creation made the store move its records has no row, but the store holds exactly the map with that variable in it |
| EnvTable.RowsOfMatch | env/env.c:972-1013 | the rows read from a store without two records of one name match it |
| EnvTable.DeletionMatchesExactly | env/env.c:862-875 | whatever the store answers to a deletion, which is not looked at: rows and slots still match exactly when the record is gone and no other has changed or moved |
| EnvTable.RefusedDeletionStays | env/env.c:862-875 | counterexample: a record that the store refuses to delete stays behind without a row |
| EnvTable.FlashHoldsMap | env/env.c:767-855 | of a matching table the records in the flash slots are exactly the names and values of the map |
| EnvTable.RowRemoved | env/env.c:729-744 | deletion with the last row moved in removes exactly one binding |
| Env.Table.FromFlash | env/env.c:969-1016 | start-up makes one row of each record of any store, in slot order; without two records of one name the table matches and stands for exactly the records, as user variables |
| Env.Table.ReadStore | env/env.c:972-1013 | the loop over all slots makes one row of each record, whatever the names |
| Env.Restart | env/env.c:969-1016 | a restart finds every variable of a matching table with its value, and of any store without two records of one name its records |
| Env.PerformAndRestart | env/env.c:523-1016 | after any run of calls in which every answer fits, or that ends with a matching table, a restart finds exactly the names and values that the calls make; if the last call is a creation the table has lost, it finds that variable too |
| Env.Table.LookupEnv | env/env.c:677-689 | finds the row of a name, or tells that there is none |
| Env.Table.FindFree | env/env.c:808-832 | finds the lowest slot that no row uses |
| Env.Table.ReInit | env/env.c:901-928 | every row whose name is in a slot gets the last such slot, the others keep theirs, whatever the store holds |
| Env.Table.EnvToFlash | env/env.c:767-855 | asks the store once to write the row's record to its slot or a free one: written, refused with whatever the store then holds, or written and rearranged |
| Env.Table.RemoveFromFlash | env/env.c:862-875 | asks the store once to delete a record and does not look at the answer |
| Env.Table.UpdateVar | env/env.c:571-593 | a refused write restores the old value, otherwise the row has the new one; rows and slots go on matching exactly when the write is done, rearranged, or refused with the store as it was |
| Env.Table.CreateVar | env/env.c:618-655 | the row joins the table exactly when the write is plainly done; which answers keep rows and slots matched; a rearranged creation leaves a store with the variable in it; the list has its end mark exactly when the row has joined |
| Env.Table.ChangeVar | env/env.c:553-604 | changing a known variable has the code and effect of Access and asks the store exactly when the value changes |
| Env.Table.WriteThrough | env/env.c:571-599 | writes the new value if it differs, and lets a user variable take over the parameters; the records behind it, and the match exactly as the answer says |
| Env.Table.AccessVar | env/env.c:523-658 | code and map are those of Access, the store is asked exactly when Access writes, and of a matching table the records behind it are known and match exactly for the answers AccessFits lists |
| Env.Table.Set | env/env.c:1172-1186 | setting a variable has the code and effect of EnvSpec.Set; the same about questions, matching, the lost variable and the end mark |
| Env.Table.DeleteRow | env/env.c:727-746 | the last row takes the place of the deleted one; rows and slots go on matching exactly when the answer to the deletion does no harm |
| Env.Table.RemoveVar | env/env.c:708-760 | resets, deletes or refuses one variable as EnvSpec.Remove says, for every answer of the store to the write or the deletion, and says exactly when rows and slots go on matching |
| Env.Table.Unset | env/env.c:1203-1215 | unsetting has the code and effect of EnvSpec.Unset, asks the store exactly when something is deleted or reset to another value, and keeps the match exactly when RemoveFits says |
| Env.Table.RemoveNext | env/env.c:1325-1342 | one look of the loop comes past one variable more, or stops with the code of its removal |
| Env.Table.RemoveAll | env/env.c:1317-1345 | terminates; the variables passed have been treated in order with the store's answers in order; OK means all of them, and any other code is that of removing the next one; of a matching table, for any answers: while those before the last fit, the match is kept exactly if the last fits, and the records are known; a stop keeps it exactly if the refusal has changed nothing |
| Env.OneMoreKept | env/env.c:708-760 | one answer more: if those so far fit, this one decides whether rows and slots match |
| EnvSpec.RemovalIsAll | env/env.c:1317-1345 | a removal that ends with OK leaves the map that RemoveAll says, in whatever order the rows were |
| EnvSpec.RemovalStops | env/env.c:1325-1342 | a removal fails only at a variable to be reset whose default is refused by its length, its decode function or the store |
| Env.Perform | env/env.c:523-1345 | any run of sets, unsets and removes, whatever the store answers: each call has the specified code and effect for the answers it got, which are the store's in the order of asking; the rows stand for the map that the calls make; from a matching table each call leaves the records its answers say, and matches exactly as CallDone says |
| Env.RunMakes | env/env.c:523-1345 | the map at every moment of a run is the one that the calls before it make |
| Env.CallFitsExactly | env/env.c:523-1345 | behind a call whose answers before the last fit, rows and slots match exactly if the last fits too, or at a stop has changed nothing |
| Env.RunKeeps | env/env.c:523-1345 | over every run rows and slots match as long as every answer fits, moved records, harmless collections and clean refusals included |
| Env.LostExactly | env/env.c:643-657 | a set reports OK without storing its variable exactly when it creates one and the store moves its records |
| Env.RefusedCreation | env/env.c:618-655 | counterexample: a creation that the store refuses leaves the list without its end mark |
| Env.RemovedIsTreated | env/env.c:708-760 | one removal in the loop is one step of treating all variables |
| EnvSpec.SetStoresUnlessRearranged | env/env.c:571-655 | a successful set changes only its own name, and stores the value except when a creation was rearranged |
| EnvSpec.RearrangedSetIsLost | env/env.c:643-657 | counterexample: a creation that is rearranged reports OK and makes no variable |
| EnvSpec.FailedSetChangesNothing | env/env.c:586-593 | a failed set changes no variable |
| EnvCodes.SetSucceedsExactly | env/env.c:523-658 | set succeeds exactly when the decode functions, the lengths, the attribute with the privileges, the room and the store allow it |
| EnvCodes.SetErrorsExactly | env/env.c:523-658 | each error of set has its exact cause |
| EnvCodes.SetParameters | env/env.c:592-655 | a new variable and one of the user's take all parameters, any other keeps its own |
| EnvCodes.UnsetSucceedsExactly | env/env.c:708-760 | unset succeeds exactly for a name that is not there, a variable of the user's, or one whose default fits and is not refused; it then is absent or has its default |
| EnvCodes.UnsetErrorsExactly | env/env.c:708-760 | VAR_RO exactly for a read-only variable, a write error exactly for a reset that the store refuses, and each other error with its exact cause |
| EnvCodes.RemovePassesExactly | env/env.c:708-760 | what env_remove does with one variable, and when it stops there |
| EnvSpec.RemoveAllLeaves | env/env.c:1317-1345 | exactly the non-user variables are left when user is set, resettable ones at their default when system is set |
| EnvSpec.RemoveSomeStep | env/env.c:1325-1342 | the variables may be treated in any order |
| EnvSpec.RunKeepsReadOnly | env/env.c:555-559 | no run of sets, unsets and removes without extended privileges changes a read-only variable |
| EnvSpec.RunKeepsOthers | env/env.c:523-658 | a variable that no call of a run names is as it was |
| EnvOnLog.CallOnLog | env/env.c:767-855 | over the record log, with a driver that refuses nothing, a call of a matching table keeps rows and slots matched, and loses nothing, exactly unless it creates a variable when the log is full |
| EnvOnLog.RunOnLog | env/env.c:523-1345 | over any run rows and slots match up to the first creation that meets a full log; that one reports OK, is lost by the table, and is in the store |
| EnvOnLog.RunWithRoom | env/env.c:523-1345 | with room in the log for a record of every question they match to the end |
| Sysenv.CheckSum | sysenv/sysenv.c:887-902 | the loop over words adds up the data bytes modulo 256, of an incomplete last word the low bytes |
| Sysenv.SumsDataExactly | sysenv/sysenv.c:887-902 | these are the bytes that were written exactly on a little-endian processor, for whole words, or when their sums happen to agree |
| Sysenv.BigEndianRefuses | sysenv/sysenv.c:893-902 | counterexample: a record of one byte on a big-endian processor |
| Sysenv.FormatHeader | sysenv/sysenv.c:630-642 | the header of a new record has the sum of its data modulo 256 |
| Sysenv.Store.CheckInuseRecord | sysenv/sysenv.c:866-920 | a record is accepted exactly when control byte, index, size and checksum are right; otherwise the store is given up |
| Sysenv.Store.Read | sysenv/sysenv.c:509-551 | reading changes nothing, and gives exactly what the store stands for, or the specified error |
| Sysenv.Store.CacheAll | sysenv/sysenv.c:722-742 | every variable is copied to RAM with its header, and the table refers to none |
| Sysenv.Store.WriteBack | sysenv/sysenv.c:755-788 | the variables go back in order of their indices; if the driver refuses, exactly the lowest ones are back |
| Sysenv.Store.CollectGarbage | sysenv/sysenv.c:711-789 | if the driver refuses nothing every index keeps its data and the log has one record for each; otherwise the first refusal is the code and exactly the lowest indices are left, none when the erasure failed |
| Sysenv.Store.Put | sysenv/sysenv.c:645-662 | a record behind a log makes a log that stands for the map with the record applied; a refusal changes at most the next free place |
| Sysenv.Store.PutNext | sysenv/sysenv.c:762-780 | a record stored in the next free place extends the log by one; a refusal leaves log and map |
| Sysenv.Store.Append | sysenv/sysenv.c:630-678 | a stored record always passes the check that follows it; a refusal gives the store up |
| Sysenv.Store.Write | sysenv/sysenv.c:585-679 | a write is done exactly when the driver refuses none of its requests, one, or with a full log one to erase and one for each variable besides; then the map has the data applied and the log is intact, otherwise the code is the first refusal and what is left is said |
| Sysenv.Store.EnterRecord | sysenv/sysenv.c:424-462 | a record is taken over exactly when index, size and, unless it deletes, checksum are right; then the table stands for one record more |
| Sysenv.Store.ScanRecords | sysenv/sysenv.c:408-463 | the records before the first free place are replayed into the table, up to the first bad one |
| Sysenv.Store.IsErased | sysenv/sysenv.c:469-476 | the words of a place are all ones exactly when all its bytes are |
| Sysenv.Store.Init | sysenv/sysenv.c:347-482 | for every content of the flash: initialisation succeeds exactly on a log, when the area is known; a log that fills the area only when the number of the next free place is right already; then the table stands for the log's last records |
| SysenvLog.LogGrows | sysenv/sysenv.c:645-676 | one record more, and the replay of the log is what the table makes readable |
| SysenvLog.WriteErrorsExactly | sysenv/sysenv.c:596-612 | each error of a write that is not carried out has its exact cause |
| SysenvLog.RecordBytes | sysenv/sysenv.c:630-652 | the bytes of a record and of an erased place |
| SysenvLog.GoodExactly | sysenv/sysenv.c:424-456 | which records initialisation accepts; the checksum of a deletion need not be right |
| SysenvLog.LogEndsOnce | sysenv/sysenv.c:408-477 | the flash determines how many records its log has |
| SysenvLog.AcceptedExactly | sysenv/sysenv.c:410-477 | a log is accepted exactly when it does not fill the area |
| SysenvLog.NotAccepted | sysenv/sysenv.c:410-477 | a place that is neither a record nor erased behind the records before it: no log is accepted |
| SysenvLog.InterruptedExactly | sysenv/sysenv.c:408-482 | a write that stopped half-way at a next free place is accepted at the next start exactly when the place is still erased, or is a record and not the last; then the old or the new data is read |
| SysenvLog.HeaderOnlyRefused | sysenv/sysenv.c:408-482 | counterexample: a write that stopped behind its header makes the whole environment unusable |
| SysenvLog.FillsUp | sysenv/sysenv.c:614-676 | counterexample: as many writes as there are places fill an empty log |
| SysenvRuns.Reboot | sysenv/sysenv.c:347-482 | a restart finds a store whose log holds everything exactly when the log does not fill the area, and then with all its data |
| SysenvRuns.WriteOne | sysenv/sysenv.c:585-679 | every write has the code and the next state of CodeOf and After, whatever the driver answers |
| SysenvRuns.WriteAll | sysenv/sysenv.c:585-679 | any run of writes has the codes and the state of CodeOf and AfterAll, whatever the driver answers; if it refuses nothing the store stands for the map they make, and its log has the number of records counted |
| SysenvRuns.WriteAllAndReboot | sysenv/sysenv.c:347-679 | after any such run and a restart the map they make is read exactly when the records counted do not fill the area, and nothing otherwise |
| SysenvLog.UnusableStays | sysenv/sysenv.c:596-599 | once the store is unusable every later write is refused and changes nothing |
| SysenvLog.RefusalLosesExactly | sysenv/sysenv.c:621-659 | a refused request makes the store unusable exactly if it is that of the record itself; otherwise the log was full and the store stays usable, and variables are lost exactly if there were any |
| SysenvLog.RefusedErasureForgets | sysenv/sysenv.c:744-750 | counterexample: a refused erasure leaves a usable store without variables |
| SysenvLog.NothingStale | sysenv/sysenv.c:585-789 | over any run, whatever the driver answers, only data is read that the writes reported done have left |
| SysenvSlots.SerializedReadsBack | env/env.c:793-794 | a name and a value with their NULs are read back as they were |
| SysenvSlots.DiskStore | syscon/syscon.c:862-869 | a code without error means the data is stored; only a full log is collected |
| SysenvSlots.DiskWrite | env/env.c:834-854 | the answers of this store to a write are those the environment table reckons with, and a collection moves no record to another slot; if the driver refuses nothing the answer depends on the number of records alone |
| SysenvSlots.DiskDelete | env/env.c:862-875 | an answer of this store to a deletion does no harm unless it is a refusal; if the driver refuses nothing it depends on the number of records alone |
| Arp.Module.constructor | net/net_arp.c:250-284 | all entries are blank; the module is open exactly when the MAC module accepted it |
| Arp.Module.AllocSap | net/net_arp.c:569-677 | one try does what Alloc says to cache, result, MAC address and the packets sent, on every error path; what that is on the bytes sent says ArpPackets.TrySends |
| Arp.Module.FindVictim | net/net_arp.c:615-635 | the first closed entry, otherwise the first with the earliest timeout |
| ArpCache.Victim | net/net_arp.c:615-635 | a live entry is chosen only if all are live, and then one with the earliest timeout |
| Arp.Module.Receive | net/net_arp.c:478-540 | requests are answered, responses resolve the entries that await them, other frames are refused |
| Arp.Module.ExpireEntry | net/net_arp.c:418-436 | one look of a poll at an entry |
| Arp.Module.Poll | net/net_arp.c:399-440 | a due poll looks at all entries in turn, with anything interrupts do between two looks |
| Arp.Module.Open | net/net_arp.c:331-377 | at most three tries with a system poll between two; the last gives the result, the ones before ended unresolved |
| ArpRuns.CacheAlwaysOk | net/net_arp.c:258-267 | in every reachable state live entries have distinct addresses, closed ones are blank, allocated ones have no MAC address |
| ArpRuns.ReturnedMacWasTold | net/net_arp.c:580-657 | a MAC address returned with OK was given by a caller for that address or came in a response from it to us while its entry awaited one |
| ArpRuns.ResolvedWereTold | net/net_arp.c:515-531 | the same of every resolved entry in every reachable state |
| ArpRuns.GivenPairKept | net/net_arp.c:580-657 | a pair given by a caller is taken over exactly when the address is not cached or is cached with that MAC address |
| ArpRuns.GivenPairIgnored | net/net_arp.c:600-612 | counterexample: a given MAC address is ignored while the entry awaits a response |
| ArpRuns.TryCaches | net/net_arp.c:580-676 | every try leaves its address in the cache, however sending and the clock end, and changes at most one entry |
| ArpRuns.FailedEntryExpiresExactly | net/net_arp.c:639-676 | a new entry whose request or timer failed is given up by a look exactly when the timer of the entry it replaces has run out |
| ArpRuns.FailedEntryExpires | net/net_arp.c:615-676 | if a closed entry was free for it, that is at the next look of an effective poll |
| ArpRuns.FailedEntryOutlives | net/net_arp.c:615-676 | counterexample: in a full cache such an entry outlives looks until its victim's time |
| ArpRuns.RequestAnswered | net/net_arp.c:478-540 | the reply of one station to the request of another resolves the entry of the asker with the station's MAC address |
| ArpPackets.TrySends | net/net_arp.c:580-676 | a try that leaves its entry awaiting a response sends exactly one packet, to six bytes 0xff: operation 1, our addresses as sender, the address asked for as target; one that ends resolved sends nothing; and the code of each |
| ArpPackets.ReceptionSends | net/net_arp.c:478-540 | a frame that asks us is answered with exactly one packet, to the MAC address that has asked, and no other frame is; and the code of each |
| ArpPackets.SentWasAsked | net/net_arp.c:478-676 | in every run each packet sent is the request of a try for its address, or the answer to a frame that has asked us |
| ArpPackets.OpenResolves | net/net_arp.c:478-676 | a try, its packet at the other station, that station's packet back: the next try delivers the other's MAC address, with OK if the clock can be read |
| ArpRuns.ReceptionAgreesExactly | net/net_arp.c:478-540 | a received frame leaves the pairs that the reception rules of RFC 826 ask for exactly when it is an awaited response or there is nothing to merge |
| ArpRuns.ReplyAgreesExactly | net/net_arp.c:478-511 | a request is answered as RFC 826 asks exactly when it speaks Ethernet and IP or is not for us |
| ArpRuns.RequesterNotAdded | net/net_arp.c:478-540 | counterexample: the pair of an unknown station that asks for our address is not added |
| ArpRuns.TimersFollowOpens | net/net_arp.c:593-676 | in a steady run each live timer runs out 30 seconds after the last open of its address |
| ArpRuns.LeastRecentGoes | net/net_arp.c:615-635 | a live entry is overwritten only when all are live, and it is the least recently opened |
| ArpRuns.PolledTimersAhead | net/net_arp.c:406-437 | once an effective poll has looked at an entry its timer, if live, is after the time read, whatever interrupts did |
| ArpRuns.IdleEntriesDie | net/net_arp.c:406-437 | after any poll every live address was opened less than 35 seconds before; with polls g apart an idle entry lives less than 35 + g seconds |
| ArpRuns.PollsWhenDue | net/net_arp.c:399-440 | a poll looks at the entries exactly if the last that did is at least five seconds ago |
| Rtc.StepsBackExactly | net/net.c:286-303 | the 32-bit seconds NET_gettime counts step back exactly at the end of the months of 31 days other than December and where the count starts again, not if both meet |
| Rtc.NoWrapBefore2105 | net/net.c:286-303 | until the year 2105 the count does not start again |
| Rtc.FebruaryIsEarlier | net/net.c:286-303 | counterexample: the end of January |
| Checksum.NetChecksum | net/net.c:325-338 | for up to 65537 words the result is the complement of the one's complement sum (RFC 1071, section 1) |
| Checksum.ComputedIsOnesComplement | net/net.c:334-337 | two folds are enough |
| Checksum.ComputedExactly | net/net.c:325-338 | for any number of words, exactly when the result is right |
| Checksum.TooManyWords | net/net.c:325-338 | counterexample: 65538 words of ones |
| Checksum.FilledChecks | net/net.c:325-338 | a zeroed field filled with the checksum makes the checksum 0 |
| Checksum.ChecksExactly | net/net.c:325-338 | the checksum is 0 exactly for a positive multiple of 65535 |
| Checksum.OneWordNoticed | net/net.c:325-338 | which changes of one word are noticed |
| Checksum.SwapCommutes | net/net.c:325-338 | swapping the bytes of all words swaps those of the result (RFC 1071, section 2) |
| Ping.Appl.EchoReply | net/net_appl.c:409-442 | only the first reply is kept |
| Ping.Appl.TestPing | net/net_appl.c:327-386 | one request goes out; the first round that is answered, expired or has a timer error ends the waiting, with that result; it is OK exactly when the first reply of all is the right one |
| Ping.SizeUsed | net/net_appl.c:330-346 | a size up to 1472 is the sequence number and the length asked for, 64 in place of a larger one, and the right reply has both |
| Ping.ResultCodes | net/net_appl.c:356-385 | the code of each way in which the waiting ends |
| Ping.OkInRoundExactly | net/net_appl.c:356-367 | a round ends the waiting with OK exactly when no reply has come before and the first of the round is right |
| Ping.RightReplyCountsExactly | net/net_appl.c:356-367 | a right reply that arrives before the waiting ends gives OK exactly when it is the first reply of all, and nothing else gives OK |
| Ping.WrongReplyFirst | net/net_appl.c:356-383 | counterexample: a wrong reply, then the right one in time, and still a timeout |
| Ping.WrongReplyShutsOut | net/net_appl.c:356-367 | once a wrong reply has come first no later reply gives OK |
| Ping.DeadlineStep | net/net_appl.c:375-378 | the deadline never underflows when a wrap is taken off |
| Ping.NeverEarly | net/net_appl.c:348-383 | no timeout is reported before the requested milliseconds have passed, across any number of wraps |
| Ping.WrapShows | net/net_appl.c:375-378 | in a round at least a millisecond shorter than the period a wrap shows as a smaller count, and only then |
| Ping.NeverMuchLater | net/net_appl.c:348-383 | the deadline slips by at most one round and a millisecond for each wrap |
| Ping.SlipBound | net/net_appl.c:375-378 | with rounds of at most g ticks the slip is at most g and a millisecond for each whole period of the counter that has passed |
| Ping.WaitIsBounded | net/net_appl.c:348-383 | with such rounds the waiting time has a closed bound that does not depend on the number of wraps |
| Ping.WaitEnds | net/net_appl.c:348-383 | by the first round behind that bound the waiting has ended |
| HandlerTable.Table.Register | exception/excep.c:590-670 | which error or handle is given; the handler goes to the first unused slot, the size grows, the line is enabled; right sizes and enables stay right |
| HandlerTable.Table.Deregister | exception/excep.c:695-747 | in any table the slot is emptied and an empty line disabled; right sizes stay right exactly when the handle was live |
| HandlerTable.SearchStaysWhenConsistent | exception/excep.c:632-644 | in a table whose sizes are right every search for an unused slot stays in its line |
| HandlerTable.SlotIsFree | exception/excep.c:632-644 | the search for an unused slot stays in range |
| HandlerTable.AddedCalls | exception/excep.c:791-861 | a registered handler is called besides the others, whose order is kept |
| HandlerTable.RemovedCalls | exception/excep.c:886-935 | a deregistered handler is called no more, the others as before |
| HandlerTable.DeregisterConsistentExactly | exception/excep.c:718-738 | deregistering keeps sizes and enables right exactly for live handles |
| HandlerTable.DeadHandleSpoils | exception/excep.c:722-725 | counterexample: a handle given back twice makes the size 255 |
| HandlerTable.DeregisterUndoesRegister | exception/excep.c:590-747 | registering and deregistering leaves calls and enables as they were |
| DispatchCalls.RegisterCodes | exception/excep.c:590-670 | registering succeeds exactly for the default handler and for a handler of a line that is there and has an unused slot; every other call has the code of its first fault and no effect |
| DispatchCalls.RegisteredCalled | exception/excep.c:590-670 | a registered handler is called once more by interrupts of its line, with its data; all other calls stay |
| DispatchCalls.DefaultCalled | exception/excep.c:590-747 | a registered default handler is called for every line without a handler, and not any more when it is given back |
| DispatchCalls.DeregisterCodes | exception/excep.c:695-747 | giving a handle back succeeds for the default handler and for slots of the table, and fails without an effect for anything else |
| HandlerTable.RestoredConsistentExactly | exception/excep.c:983-1005 | a saved table fits the present masks exactly when the same lines have handlers |
| HandlerTable.RestoreSpoils | exception/excep.c:983-1005 | counterexample: an empty table put back under an enabled line |
| HandlerTable.RunKeepsConsistent | exception/excep.c:590-935 | over every run with live handles sizes count the occupied slots and exactly the lines with handlers are enabled |
| Bits.MsBitIs | exception/excep.c:227-252 | the table gives the most significant bit |
| Bits.OnesAreBits | exception/excep.c:1438-1450 | taking the top bit again and again lists each set bit once, in descending order |
| Dispatch.Dispatcher.RunHandlers | exception/excep.c:1362-1396 | a line calls its handlers in slot order, or the default handler, or halts |
| Dispatch.Dispatcher.InterruptSr | exception/excep.c:1414-1452 | the pending unmasked lines are served from the highest down |
| Dispatch.PendingAreUnmasked | exception/excep.c:1432-1433 | the lines served are exactly those requested and not masked |
| Dispatch.Dispatcher.ServeLine | exception/excep.c:1500-1536 | a controller line calls its handlers or the default one (with the data of the CPU's default) and ends with one EOI, or halts |
| Dispatch.Dispatcher.ServeByte | exception/excep.c:1489-1537 | the set lines of a byte are served from the highest down |
| Dispatch.Dispatcher.ServeRound | exception/excep.c:1484-1541 | the four bytes of a pending word are served in ascending order |
| Dispatch.Dispatcher.ControllerSr | exception/excep.c:1473-1543 | rounds go on until nothing is pending or the built-in handler takes over |
| Dispatch.OrderIsPending | exception/excep.c:1484-1541 | the order names each pending line exactly once and no other line |
| Dispatch.RoundServesPending | exception/excep.c:1482-1543 | a completed round serves each pending line exactly once with one EOI each |
| Dispatch.OwnDataExactly | exception/excep.c:1507-1513 | the default controller handler is given its own data exactly when it is that of the CPU's default handler |
| Dispatch.ServedOwnData | exception/excep.c:1484-1541 | throughout a list of lines every handler is given its own data exactly when the data agree or no line is left to the default handler |
| Dispatch.RoundsOwnData | exception/excep.c:1482-1543 | the same for all rounds of a dispatch |
| Dispatch.DefaultedIsPending | exception/excep.c:1484-1541 | a line of a word is left to the default handler exactly when its bit is set and it has no handler |
| Dispatch.ForeignData | exception/excep.c:1507-1513 | counterexample: line 5 calls the default controller handler with the CPU's data |
| DispatchCalls.CpuLineCalls | exception/excep.c:1362-1396 | an interrupt of a CPU line calls the handlers of its occupied slots in order with their own data, or the default handler, or the built-in one takes over |
| DispatchCalls.IcLineCalls | exception/excep.c:1500-1536 | the same for a controller line, with one end of interrupt behind the calls |
| DispatchCalls.CpuInterruptCalls | exception/excep.c:1414-1452 | an interrupt of the CPU calls that for every line requested and not masked, from line 7 down, and stops only where nobody serves a line |
| DispatchCalls.CalledExactly | exception/excep.c:1414-1452 | each handler is called exactly as often as it is registered on requested lines, the default one once for each requested line without a handler; the built-in one takes over exactly if a requested line has neither |
| DispatchCalls.IcRoundCalls | exception/excep.c:1482-1541 | a round of the controller does it for every pending line, bytes ascending and bits descending |
| DispatchCalls.IcInterruptCalls | exception/excep.c:1473-1543 | and so do all rounds up to the first reading that shows nothing |
| Modetty.SearchS2Num | env/env_tty.c:232-257 | the number of the first entry with that text, or none |
| Modetty.SearchNum2S | env/env_tty.c:275-295 | the text of the first entry with that number, or none |
| Modetty.SearchesUndo | env/env_tty.c:232-295 | the two table searches undo each other |
| Modetty.SplitJoin | env/env_tty.c:376-390 | splitting at commas undoes joining with commas |
| Modetty.JoinSplit | env/env_tty.c:376-390 | joining with commas undoes splitting at commas |
| Modetty.Tokenize | env/env_tty.c:376-390 | cutting the copy in place gives exactly five tokens or fails, and the tokens are the parts between the commas |
| Modetty.ModettyS2Num | env/env_tty.c:350-435 | accepts exactly the decodable texts and packs their settings, otherwise leaves the result alone |
| ModettyTexts.RatesListed | env/env_tty.c:98-121 | the number of each rate, by its name |
| ModettyTexts.SmallTablesListed | env/env_tty.c:125-160 | the number of each parity and of each number of data bits, stop bits and flow control, by name |
| ModettyTexts.TextSelects | env/env_tty.c:350-435 | a text is accepted exactly if it is at most 23 characters long and its five parts, in order, name a rate the port supports, a parity, data bits, stop bits and flow control; and these are its settings |
| ModettyTexts.PackedWord | env/env_tty.c:423-429 | where each setting is in the packed word |
| Modetty.String2Parts | env/env_tty.c:786-805 | the settings of an accepted text; for any other text, what was on the stack |
| Modetty.StackMattersExactly | env/env_tty.c:786-805 | the stack does not matter exactly for texts that can be decoded |
| Modetty.StackShows | env/env_tty.c:786-805 | counterexample: 9600 alone gives what was on the stack |
| Modetty.Parts2String | env/env_tty.c:824-869 | the text of settings that are all known; the buffer never overflows |
| Modetty.AcceptedTextComesBack | env/env_tty.c:786-869 | every accepted text is the text of its settings |
| Modetty.KnownSettingsComeBack | env/env_tty.c:350-435 | every known setting's text is accepted and decodes to it |
| EnvText.ValidateCache | env/env.c:320-347 | a setting is accepted exactly when it is in the list of its cache |
| EnvText.ValidateCpuconfig | env/env.c:367-478 | accepts and decodes as Validate says, including the settings of now for an empty text |
| EnvText.SetupCpuconfig | env/env.c:1433-1451 | writes the text of a configuration |
| EnvText.ConfigurationReadsBack | env/env.c:367-478 | the text of a configuration is accepted exactly when its caches are supported, and gives back every setting it says |
| EnvText.JunkMattersExactly | env/env.c:367-478 | what the unset local variables hold does not matter exactly for an empty or rejected text or when cache and MMU are both configurable |
| EnvText.JunkShows | env/env.c:367-478 | counterexample: with only the MMU configurable, tlb delivers cache settings nobody has set |
| EnvText.DecodingIsStable | env/env.c:367-478 | an accepted text decodes to supported settings, and their own text decodes to them again |
| EnvText.IpS2Num | env/env.c:1363-1415 | four numbers up to 255 with dots between; the address is delivered even when text follows |
| EnvText.AddressReadsBack | env/env.c:1363-1415 | a dotted address reads back as its four bytes |
| EnvTextExact.AddressTaken | env/env.c:1363-1415 | four numbers up to 255 with dots between them are an address, delivered even if something follows |
| EnvTextExact.AddressNeeded | env/env.c:1363-1415 | and no other text is |
| EnvTextExact.NoAddress | env/env.c:1363-1415 | a number above 255, a missing dot and too few numbers are refused |
| EnvTextExact.FieldsInOrder | env/env.c:367-478 | which setting each number of a configuration is, and that it is accepted exactly if the caches can have them |
| EnvTextExact.CachesTaken | env/env.c:380-440 | every text of four numbers with commas between them gives these numbers |
| EnvTextExact.CachesNeeded | env/env.c:380-440 | and no other text gives any |
| EnvTextExact.TextSays | env/env.c:1433-1451 | the text written says the settings in the same order |

## Left out

- Strtoull: bases other than 8, 10 and 16 (and 0), for which the source leaves its cutoffs unset.
- Printf.Printer.Doprntx: width, precision and count are unbounded numbers, because C leaves the overflow of the source's int undefined; the store of %n is recorded with its size and value.
- Loader.Loader.LoaderImage: S-records are the only format, as in the source; a port is a terminal, the network or another that is refused; the raw error code beside the completion code, cache flushes and the progress display are not part of this model.
- SrecordCodec.LoadUndoesEncoding: assumes that the services accept every record, the network layer meets no error, and nobody types a break.
- Env.Table.FromFlash: records whose bytes do not hold two NULs, and the system variables that start-up then sets, are not part of this model.
- Sysenv.Store.CheckInuseRecord: the store is that of a little-endian processor; SumsDataExactly says when the checksum is the same on a big-endian one, where env.c writes whole words only (`env/env.c:796-803`).
- Sysenv.Store.Init: the registration of error texts.
- EnvOnLog.RunOnLog: nothing is said about calls after a creation has been lost, and the driver refuses nothing; what single calls do with other answers is `Env.Perform`.
- SysenvSlots.DiskWrite: names and values whose characters are bytes; the byte swapping of `env.c` on a big-endian processor is left out.
- Arp.Module.Poll: a poll started by an interrupt inside a poll.
- ArpRuns.TimersFollowOpens: needs a clock that does not step back and sending that does not fail; `NET_gettime` does not guarantee the first (`StepsBackExactly`).
- Ping.NeverEarly: like all bounds on the waiting time it needs that the first read of the counter succeeds; the source does not look.
- HandlerTable.Table.Register: in a table whose sizes are wrong the search may leave the line, and then the source writes into the next; such a call is excluded.
- Ping.NeverMuchLater: needs rounds at least a millisecond shorter than the counter's period.
- Dispatch.Dispatcher.ControllerSr: handlers that register or deregister handlers while they are called; the table is fixed during a dispatch.
- HandlerTable.Table.Deregister: a handle is a line and slot number; any other pointer is a handle of no slot.
- env_print_all, env_get and decode_number: printing, lookup and single-number decoding, whose properties follow from those of sorting, lookup and strtoul.
- PrintDeparts.PrecisionHonouredExactly: besides the departures listed, `%e`, `%f` and `%g` are not supported, and a newline goes out as two characters; both follow the code without a theorem of their own.
- Device drivers, UART, LAN, flash programming, SYSCON calls, MAC, IP, ICMP, UDP and TFTP: hardware or protocol code around the modelled core.
- io, init, shell, fpuemul, lib/strtol.c, lib/sscanf.c and the small string helpers: would add only easy members or no clean claims.
