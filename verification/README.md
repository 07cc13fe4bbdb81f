# A model of fwts' scanners and accounting tables

fwts, the Firmware Test Suite, checks what a machine's firmware hands to the operating system. This
project models its hand-written scanners and its shared tables and proves what they compute:

* **kernelscan** (`LexSpec`, `LexFacts`, `LexGrammar`, `Lexer`, `LexMachine`, `LexRoundTrip`, `PerfectHash`, `Message`,
  `Listening`, `Scan`, `ScanExample`): a C lexer
  with a push-back list and a growable token buffer, a search for a collision-free hash size, and the parser that glues
  adjacent string literals of kernel messages together. The lexer refines a one-pass machine; the input is its tokens and
  what may stand between them, with every token's end and type given by its characters; its output can be printed and
  read again; the single pass of the message parser equals grouping and rendering; and exactly those calls are printed that
  are heard by a listener who skips the token behind each message.
* **The ACPICA OS layer** (`OsTables`, `OsRuns`, `OsThreads`): semaphores whose operation and count are two steps, and a
  thread table that is drained, as a transition system over all interleavings.
* **NHLT** (`Nhlt`, `NhltWalk`, `NhltValidate`, `NhltClip`, `NhltDump`, `NhltExample`): the table's grammar as trees with an
  encoder and a parser, and two walkers over 32-bit offsets that are proved to agree with it and with each other. Of a table
  that is cut off, the dumper shows what it shows of the whole one, cut off at the same place.
* **Record walkers** (`Walks`, `Nfit`, `Hest`, `Lpit`, `Madt`, `Dmar`): loops over lengths read from the table, each proved
  against a declarative description of the tables it accepts.
* **Clones and checksums** (`Bytes`, `Checksum`, `TableClone`): the tables handed to ACPICA and the checksum test.

`Wrappers` and `Sets` hold an option type and one fact about finite sets.

Code that changes things step by step is imperative here: classes for the parser, the token buffer, the hash table, the OS
layer and the MADT's lists of IDs, and methods with loops, each proved against a specification function or a declarative
predicate. uint32 is a bounded type, so the proofs of the NHLT methods include that no offset wraps around.

Where the code differs from what one would expect, the model follows the code:

* `parse_kernel_message` leaves `;` in the token, so a call directly behind a message is missed (`Scan.MissedExactly` says
  exactly when).
* At end of input a final `0` becomes `00`, a final `/` is lost, and a backslash that ends an open literal is dropped; `8`
  counts as an octal digit; a leading `_` and unlisted characters are passed over.
* A failed `sem_init` leaves its slot used for good, and it counts as released. With nothing half done, `released` is the
  number of live semaphores back at their base value exactly in runs without such a failure
  (`OsRuns.ReleasedIsLiveExactly`).
* The drain of the thread table marks a slot free without looking again whether it was handed out in the meantime, and never
  looks back. The model allows `AcpiOsExecute` at any time. A call can cost a running callback its slot exactly when it gets
  the slot whose thread is being joined (`OsThreads.ExecuteSafeExactly`), and can leave one running behind a finished drain
  exactly when it gets a slot the drain is done with or waits in (`OsThreads.ExecuteIdleExactly`). Both are conditions on
  the state before the call.
* The RSDP clone sums its old checksum byte too and keeps its extended checksum.
* `nhlt_test1` reports neither pass nor failure when the descriptor of an endpoint is cut off, as in a header followed by a
  count and nothing else.
* The NFIT scan does not compare the last two bytes of its region with zero, and takes a zero byte behind a formatted area,
  another byte following, for an empty first string.
* The HEST and LPIT loops trust the length in the header, and the HEST length test sees the loaded length modulo 2^32. Within
  the length in the header, HEST reads one byte too far exactly when its walk comes to the last byte (`Hest.TypeReads`), and
  LPIT exactly when nine bytes are left for a structure whose ID it reads (`Lpit.IdReads`).
* The reader of the PCI configuration takes an 8-bit segment, which makes a difference exactly from segment 0x100 on
  (`Dmar.SegmentsBelow256`), and device scopes of type 0 are resolved like the others.
* The MADT reference entry is chosen by comparing major and minor numbers separately, not as one version, so that an older
  row may be chosen, or none.

Parameters stand for what lies outside: `klogFind` for the pattern search in kernel messages, `find` for the search of a
loaded table by its address, `pci` for the configuration space, `mem` for the memory behind a table whose length is not
checked, `fieldsOk` for the fixed-field checks of a record, and `signedChar` for the signedness of `char`, on which the hash
depends.

## Model

| member | source | states |
|---|---|---|
| `LexMachine.TokensAreRun` | src/utilities/kernelscan.c:488-842 | On every input the push-back lexer delivers exactly the tokens of a one-pass machine that reads each character once; the machine ends inside a literal exactly when some delivered literal is not closed |
| `LexRoundTrip.RoundTrip` | src/utilities/kernelscan.c:538-842 | Printing the tokens one blank apart with a final newline and lexing again gives the same texts and types if and only if the input does not end inside a literal |
| `LexRoundTrip.PrintedTokens` | src/utilities/kernelscan.c:538-842 | The same with the condition on the tokens: the round trip holds if and only if every literal delivered is closed |
| `LexRoundTrip.Relex` | src/utilities/kernelscan.c:741-842 | One token lexed from any input and put in front of white space is lexed again as itself, unless it is a literal the input left open |
| `LexFacts.RunIsLongestPrefix` | src/utilities/kernelscan.c:602-647 | Maximal munch: the text gathered for a number or an identifier is the longest prefix of the input whose characters all belong to the class |
| `LexFacts.LiteralClosed` | src/utilities/kernelscan.c:653-683 | The literal text ends with its quote, outside an escape, exactly when the quote is found before the input ends |
| `LexFacts.LexOneAppends` | src/utilities/kernelscan.c:741-842 | A token that was not cleared gets the next token's text appended and nothing else about the input changes |
| `LexFacts.TokensLexical` | src/utilities/kernelscan.c:741-842 | Every delivered token is consistent with its type; in particular one whose text starts with a letter is an identifier |
| `LexGrammar.TokensAre` | src/utilities/kernelscan.c:488-842 | The input is, by turns, characters that may be skipped and the texts of the tokens in order, with a lost end at most behind the last one; each token reaches as far as a token of its first character can, keeps that text but for the two cases at the end of input, and has the type its text calls for |
| `LexGrammar.TokensTyped` | src/utilities/kernelscan.c:741-842 | The type of every delivered token by its text alone: a string literal exactly if it starts with `"`, a character literal exactly with `'`, an identifier exactly with a letter, white space exactly with a blank, and each of `# ( ) [ ] < > , ;` and `->` exactly for that text; nothing else has a type |
| `LexGrammar.LexOneIs` | src/utilities/kernelscan.c:741-842 | One call on a cleared token: what is skipped, the text that is read and the input left behind it, or that nothing but skipped characters and an unfinished comment or a last slash is left |
| `Lexer.Parser.GetNext` | src/utilities/kernelscan.c:226-242 | Reading takes the first character of one logical stream, which is the pushed-back characters followed by the rest of the file |
| `Lexer.Parser.UngetNext` | src/utilities/kernelscan.c:248-260 | Pushing back puts the character in front of that stream; end of file is pushed back only at its end |
| `Lexer.TokenBuffer.Append` | src/utilities/kernelscan.c:307-328 | The text gains one character at its end whether or not the buffer had to be enlarged |
| `Lexer.TokenBuffer.Clear` | src/utilities/kernelscan.c:281-288 | The cleared token is empty and of unknown type |
| `Lexer.TokenBuffer.LiteralStripQuotes` | src/utilities/kernelscan.c:848-855 | The text loses its first and last character |
| `Lexer.TokenBuffer.CString` | src/utilities/kernelscan.c:863-886 | What string functions see of the text: all of it up to the first NUL |
| `Lexer.SkipComments` | src/utilities/kernelscan.c:488-531 | A comment is erased to its end, an unfinished one to the end of the input, and a lone slash leaves the character behind it unread |
| `Lexer.ParseNumber` | src/utilities/kernelscan.c:538-623 | Hexadecimal, octal and decimal numbers up to their longest extent; `0x` with no digit is the number 0 followed by an identifier; at end of input a final 0 is doubled |
| `Lexer.ParseIdentifier` | src/utilities/kernelscan.c:628-648 | The longest identifier, the character behind it left unread |
| `Lexer.ParseLiteral` | src/utilities/kernelscan.c:653-683 | A literal up to its unescaped quote, or to the end of the input, where a trailing backslash is dropped |
| `Lexer.ParseOp` | src/utilities/kernelscan.c:689-707 | A doubled operator is one token, a single one leaves the next character unread |
| `Lexer.ParseMinus` | src/utilities/kernelscan.c:712-736 | `->`, `--` and `-` are told apart with one character of look-ahead |
| `Lexer.GetToken` | src/utilities/kernelscan.c:741-842 | Terminates on every input, keeps at most two characters pushed back, delivers the next token and the rest of the stream behind it, or reports the end and leaves the token alone; `LexGrammar.LexOneIs` says by characters which token that is |
| `PerfectHash.ComputeDjb2a` | src/utilities/kernelscan.c:201-211 | The loop computes the 32-bit hash of the string, which the two rows below pin down |
| `PerfectHash.Djb2aIs` | src/utilities/kernelscan.c:201-211 | The hash of the empty string is 5381, and one more character makes 33 times the hash modulo 2^32, exclusive-or'd with the character; where char is signed, one from 0x80 on comes with 24 more ones |
| `PerfectHash.HashOfDbg` | src/utilities/kernelscan.c:177-211 | The name `dbg` of the list has the hash 0x0b871d84, whether char is signed or not |
| `PerfectHash.FuncTable.FillTable` | src/utilities/kernelscan.c:995-1012 | One trial fails exactly when two names share a slot; otherwise the table holds the names in their slots and nothing left over from earlier trials |
| `PerfectHash.FuncTable.HashInit` | src/utilities/kernelscan.c:991-1017 | On success the size is the least in 50..4999 without a collision; it fails exactly when every size has one |
| `PerfectHash.FuncTable.HashFind` | src/utilities/kernelscan.c:959-965 | For every string the lookup holds if and only if the string is in the list |
| `PerfectHash.HoldsExactly` | src/utilities/kernelscan.c:959-965 | In a filled table the slot of a string holds it if and only if it is one of the names |
| `Message.MessageIsReference` | src/utilities/kernelscan.c:891-957 | A message ends at its first `;` and is reported as the reference says: group the tokens in front of it into runs of adjacent string literals, render, and look each glued literal up |
| `Message.SinglePassIsReference` | src/utilities/kernelscan.c:891-957 | For any tokens and any lookup, the single pass with its flags gives the same line and the same verdict as grouping first and rendering after |
| `Message.GroupingKeepsTokens` | src/utilities/kernelscan.c:922-953 | Grouping loses no token, adds none and keeps the order; string literals and nothing else are glued |
| `Message.GroupsAreMaximal` | src/utilities/kernelscan.c:922-953 | No two glued groups are adjacent and none is empty, so each is a maximal run |
| `Message.TokenAdds` | src/utilities/kernelscan.c:922-953 | What each token adds to the line, which starts with the name: a quote in front exactly where literals begin or end, the text up to its first NUL, of a string literal without its first and last character, and a blank behind a comma and behind a name that does not follow a comma |
| `Message.ContentAppends` | src/utilities/kernelscan.c:922-933 | What is looked up for a run of literals is their contents one behind the other, with nothing in between |
| `Message.AddToken` | src/utilities/kernelscan.c:922-953 | One round of the loop on the token buffer is one step of the pass, the stripping of quotes in place included |
| `Message.ParseKernelMessage` | src/utilities/kernelscan.c:891-957 | Reports the message of the token stream up to its `;`, leaves that `;` in the token, and consumes input |
| `Scan.ParseKernelMessages` | src/utilities/kernelscan.c:970-989 | Terminates on every file and prints, in order and with the reference's reports, exactly the calls that are heard when the token right behind the `;` of each message is skipped |
| `Scan.KernelScan` | src/utilities/kernelscan.c:1039-1064 | The program gives up if and only if no table size is free of collisions; otherwise it prints exactly the calls heard among the one-pass machine's tokens, the token behind each message skipped |
| `Scan.ScanIs` | src/utilities/kernelscan.c:970-989 | On all tokens: the scan prints the calls heard when listening goes on two positions behind each `;`, and the scan that misses nothing those heard one position behind it. A call is a name of the list with the next `;` behind it, and a miss clears the token and goes on |
| `Scan.HeardArePrinted` | src/utilities/kernelscan.c:970-989 | Whoever knows the calls that are heard knows every report and that there are no more |
| `Listening.HeardOnce` | src/utilities/kernelscan.c:970-989 | Which calls are heard is determined |
| `Scan.MissedExactly` | src/utilities/kernelscan.c:913-921 | Every call of a listed function is printed if and only if no finished one stands directly behind the `;` of another message |
| `Scan.FileMissedExactly` | src/utilities/kernelscan.c:970-989 | The same over the characters of a file |
| `Scan.LostCall` | src/utilities/kernelscan.c:913-921 | A finished call directly behind a `;` changes what is printed, whatever follows it |
| `Scan.PrintsNoMore` | src/utilities/kernelscan.c:970-989 | What the scan prints is never longer than the reports of all calls |
| `ScanExample.TwoCallsOnePrinted` | src/utilities/kernelscan.c:913-921 | In `dbg;dbg;` one of the two calls is printed |
| `ScanExample.ThreeCallsTwoPrinted` | src/utilities/kernelscan.c:970-989 | In `dbg("a");dbg("b");dbg("c");` the first and the third call are printed, with these reports, and the second is not |
| `OsTables.OsLayer.CreateSemaphore` | src/libfwtsacpica/fwts_acpica.c:513-549 | The first unused slot is taken with count zero, and no other slot changes; a semaphore that cannot be initialised leaves its slot used; a full table changes nothing |
| `OsTables.OsLayer.DeleteSemaphore` | src/libfwtsacpica/fwts_acpica.c:555-586 | Accepts exactly the handles of live slots and frees the slot, and touches no other slot |
| `OsTables.OsLayer.WaitSemaphore` | src/libfwtsacpica/fwts_acpica.c:598-658 | Undisturbed, a wait that goes through moves one unit from the value to the count, so that their sum stays; any other wait changes nothing |
| `OsTables.OsLayer.SignalSemaphore` | src/libfwtsacpica/fwts_acpica.c:665-680 | Undisturbed, a signal moves the unit back |
| `OsTables.OsLayer.SemCountClear` | src/libfwtsacpica/fwts_acpica.c:114-124 | All counts become zero and nothing else changes |
| `OsTables.OsLayer.SemCountGet` | src/libfwtsacpica/fwts_acpica.c:131-166 | Undisturbed: all 128 thread slots are free afterwards; acquired and released are the sizes of the sets of used slots and of used slots with count zero, and released <= acquired <= 2048 |
| `OsTables.OsLayer.ExecuteSlot` | src/libfwtsacpica/fwts_acpica.c:735-765 | The first unused thread slot is taken, or none when all 128 are used |
| `OsTables.ExecuteThenFree` | src/libfwtsacpica/fwts_acpica.c:715-765 | Handing out a thread slot and marking it free again leaves every slot as free as it was and the same slot next in line |
| `OsTables.CountsBounded` | src/libfwtsacpica/fwts_acpica.c:157-165 | Released never exceeds acquired, which never exceeds 2048 |
| `OsRuns.SemaphoreAccounting` | src/libfwtsacpica/fwts_acpica.c:513-680 | In every interleaving of create, delete, clear and the two steps of each wait and signal, a live slot's value, count and half-done operations add up to its value at creation or last clear |
| `OsRuns.WaitIsTwoSteps` | src/libfwtsacpica/fwts_acpica.c:598-658 | The two steps of a wait, one behind the other, are possible exactly on a value above zero and then do what the undisturbed wait does |
| `OsRuns.SignalIsTwoSteps` | src/libfwtsacpica/fwts_acpica.c:665-680 | The same of a signal, exactly on a value below the largest one |
| `OsRuns.StepKeepsSemInv` | src/libfwtsacpica/fwts_acpica.c:513-680 | Every enabled step of every actor keeps that balance, and keeps actors off dead slots |
| `OsRuns.ReleasedIsBackAtBase` | src/libfwtsacpica/fwts_acpica.c:157-165 | With nothing half done, the slots counted as released are exactly those whose semaphore is back at its base value, together with slots leaked by a failed initialisation |
| `OsRuns.LeakStep` | src/libfwtsacpica/fwts_acpica.c:513-586 | Of one step: all used slots go on holding live semaphores if and only if the step is not such a call; a leaked slot is never given back |
| `OsRuns.ReleasedIsLiveExactly` | src/libfwtsacpica/fwts_acpica.c:157-165 | Of every run with nothing half done at its end: the number of released slots is the number of live semaphores back at their base value if and only if no call of the run initialised a semaphore in vain while a slot was free |
| `OsRuns.FailedCreateLeaks` | src/libfwtsacpica/fwts_acpica.c:537-542 | One AcpiOsCreateSemaphore with too many units makes a slot count as released that holds no semaphore |
| `OsThreads.StepKeepsThreadInv` | src/libfwtsacpica/fwts_acpica.c:131-151 | Every step, a callback started during the drain included, keeps used slots holding unfinished threads that were started in them, and the drain joining such threads only |
| `OsThreads.JoinsOnce` | src/libfwtsacpica/fwts_acpica.c:139-151 | In no run does the drain join a thread it has joined before |
| `OsThreads.NoThreadJoinedTwice` | src/libfwtsacpica/fwts_acpica.c:139-151 | The threads that the drain joins in a whole run are pairwise different |
| `OsThreads.CallbackLife` | src/libfwtsacpica/fwts_acpica.c:715-765 | A callback that nothing disturbs can be started, return, give its slot back and exit exactly if some slot is unused; it runs in the first such slot and leaves all slots as free as they were |
| `OsThreads.OwnershipStep` | src/libfwtsacpica/fwts_acpica.c:145-149 | Of one step: unfinished callbacks go on owning their slots if and only if the step is not the drain marking a used slot free |
| `OsThreads.OwnershipExactly` | src/libfwtsacpica/fwts_acpica.c:131-151 | Of every run: unfinished callbacks own their slots at every moment if and only if the drain never marks a used slot free |
| `OsThreads.CallbacksOwnDistinctSlots` | src/libfwtsacpica/fwts_acpica.c:715-770 | Then they own pairwise distinct used slots, so there are at most 128 of them |
| `OsThreads.NoRaceNoErasure` | src/libfwtsacpica/fwts_acpica.c:139-151 | The drain marks no used slot free if AcpiOsExecute never hands out the very slot whose thread the drain waits for or has just joined |
| `OsThreads.ExecuteSafeExactly` | src/libfwtsacpica/fwts_acpica.c:730-765 | Of one call of AcpiOsExecute in a run without such races: whatever follows without further calls leaves everybody their slot if and only if the call does not race |
| `OsThreads.OverlapLosesSlot` | src/libfwtsacpica/fwts_acpica.c:139-151 | Such a race is reachable: a callback started between the join and the mark runs on without its slot |
| `OsThreads.DrainIdleExactly` | src/libfwtsacpica/fwts_acpica.c:131-151 | When the drain has finished, no callback is left if and only if none of those started in a slot it was already done with is |
| `OsThreads.ExecuteIdleExactly` | src/libfwtsacpica/fwts_acpica.c:730-765 | Of one call of AcpiOsExecute in a run without such calls: whatever follows without further calls, no callback is left when the drain has finished, if and only if the call itself does not get a slot the drain is done with or waits in |
| `OsThreads.IdleAfterCallsExactly` | src/libfwtsacpica/fwts_acpica.c:131-151 | Of every run: after each of its calls of AcpiOsExecute the drain leaves nobody however it goes on, if and only if no call of the run gets a slot the drain is done with or waits in |
| `OsThreads.CallbackLeftBehind` | src/libfwtsacpica/fwts_acpica.c:131-151 | Such a call is reachable: the drain has finished, and a callback started in slot 0 behind it still runs |
| `OsThreads.LeftBehindMiscounts` | src/libfwtsacpica/fwts_acpica.c:131-166 | From there a state is reachable in which a semaphore is counted as released that is not back at its base value |
| `OsThreads.CountsAreExactAfterDrain` | src/libfwtsacpica/fwts_acpica.c:131-166 | When nobody is left, no slot is used, nothing is half done, and the slots counted as released are those back at their base value |
| `OsThreads.CountsAreExactIfNothingLate` | src/libfwtsacpica/fwts_acpica.c:131-166 | The same whenever the drain finishes in a run whose calls get no slot the drain is done with or waits in; the count is that of the live semaphores at base if and only if no initialisation has failed |
| `OsThreads.NothingLate` | src/libfwtsacpica/fwts_acpica.c:131-151 | If no call of AcpiOsExecute lands in a slot the drain is done with or waits in, the drain marks no used slot free either |
| `OsThreads.LateOnceMoving` | src/libfwtsacpica/fwts_acpica.c:135-145 | Once the drain is done with slot 0, every call of AcpiOsExecute lands behind it, as long as nobody started there before is unfinished |
| `OsThreads.DrainProgress` | src/libfwtsacpica/fwts_acpica.c:139-151 | The drain is never stuck: it can step, or waits for a thread that exists, has not exited and can step, and the step brings its end nearer |
| `OsThreads.DrainCanFinish` | src/libfwtsacpica/fwts_acpica.c:139-151 | In every run, whenever the drain is on, some way on without further callbacks ends it |
| `Nhlt.TableDecodes` | src/acpi/nhlt/nhlt.c:34-273 | Parsing the encoding of any tree of the grammar gives that tree back |
| `Nhlt.TableEncodes` | src/acpi/nhlt/nhlt.c:34-273 | Whatever parses is the encoding of the tree it parses to |
| `Nhlt.AcceptsExactlyGrammar` | src/acpi/nhlt/nhlt.c:34-273 | Bytes are accepted if and only if some tree of the grammar with legal link types, directions and device types encodes to them |
| `NhltWalk.WalkFollowsGrammar` | src/acpi/nhlt/nhlt.c:34-273 | A walk by offsets reaches its end exactly on what parses, and passes exactly what is accepted |
| `NhltWalk.VisitsAreThePieces` | src/acpi/nhlt/nhlt.c:34-273 | The sub-ranges stepped over hold, one for one and in order, the descriptors, configs, formats and devices of the tree |
| `NhltWalk.SilentExactly` | src/acpi/nhlt/nhlt.c:104-107 | The walk ends without a failure and without passing if and only if, behind legal endpoints, the next descriptor is cut off by the end of the table |
| `NhltWalk.CountWithoutEndpoints` | src/acpi/nhlt/nhlt.c:104-107 | Any header followed by a count above zero and nothing else is such an input |
| `NhltValidate.ValidateFormatConfigs` | src/acpi/nhlt/nhlt.c:34-91 | Succeeds exactly when all formats and their configs fit below the limit, ends behind them, with no wrap of a 32-bit offset and no read past the limit |
| `NhltValidate.ValidateEndpoint` | src/acpi/nhlt/nhlt.c:93-220 | Succeeds exactly when the endpoint fits and all its parts do, advances to its end, and clears the verdict for every reserved value and every reported failure |
| `NhltValidate.NhltTest1` | src/acpi/nhlt/nhlt.c:222-273 | A pass is reported if and only if the bytes, as many as the length modulo 2^32, belong to the grammar; and nothing at all is reported if and only if a descriptor is cut off behind legal endpoints |
| `NhltExample.AcceptedExactly` | src/acpi/nhlt/nhlt.c:93-273 | A table of 61 bytes with one endpoint of 24 is accepted if and only if its bytes for link type, device type and direction are in the ranges the test asks for, whatever all its other bytes are |
| `NhltDump.DumpConfig` | src/acpi/nhltdump/nhltdump.c:166-198 | Never leaves the limit; is not truncated exactly when the config fits |
| `NhltDump.DumpDevicesInfo` | src/acpi/nhltdump/nhltdump.c:200-244 | Never leaves the limit; is not truncated exactly when all devices fit |
| `NhltDump.DumpEndpoint` | src/acpi/nhltdump/nhltdump.c:274-361 | On any endpoint the offset stays below the end and the end below the table length; no truncation exactly when the validator's walk goes through |
| `NhltDump.NhltDumpTest1` | src/acpi/nhltdump/nhltdump.c:250-367 | On any table every dumped range lies inside it; no truncation branch is taken if and only if the table parses, and then the ranges are those of the validator; and if the table is the front part of any table that parses, the ranges are those of that table whose fixed part is there, in order, cut off at the end |
| `NhltClip.TableClipped` | src/acpi/nhltdump/nhltdump.c:250-367 | For every table that parses and every k, what is dumped of its first k bytes is what is dumped of the whole, kept where the fixed part of a range (19 bytes of a descriptor, 40 of a format, 18 of a device, the size of a config) ends at or below k, and cut off at k |
| `NhltClip.TableShows` | src/acpi/nhltdump/nhltdump.c:250-367 | For any table, parsing or not: the endpoints that are dumped follow each other by their lengths until one is cut short or too short, each is shown as it would be with zeros behind it, cut off at its end, and the config behind them only if all announced ones were there |
| `NhltExample.SecondMissing` | src/acpi/nhltdump/nhltdump.c:274-361 | Of a table that announces two endpoints and has one of 24 bytes, its descriptor 37..61 and its empty config at 60 are dumped before the dump stops |
| `Walks.RunOnce` | src/acpi/hest/hest.c:804-849 | Where a record determines its end, a table has at most one tiling from a given start |
| `Walks.DeadEnd` | src/acpi/hest/hest.c:844-847 | If the records met so far can neither end nor go on, the table has no tiling at all |
| `Nfit.ScanNfitSmbios` | src/acpi/nfit/nfit.c:72-113 | True if and only if the region is tiled by entries, each ending at the first double zero behind its formatted area or at the region's unchecked last two bytes; terminates and reads only inside the region |
| `Nfit.ScanUndoesEncoding` | src/acpi/nfit/nfit.c:72-113 | The encoding of any list of SMBIOS structures is tiled by exactly the boundaries of the structures and by no others |
| `Nfit.DecodableExactly` | src/acpi/nfit/nfit.c:72-113 | An accepted region is the encoding of some list of SMBIOS structures if and only if it is empty or ends in two zero bytes, and no string area begins with an empty string |
| `Nfit.CompleteExactly` | src/acpi/nfit/nfit.c:94-104 | Every entry of an accepted region ends in two zero bytes if and only if the region is empty or does |
| `Nfit.UncheckedEnd` | src/acpi/nfit/nfit.c:95-104 | A region whose last two bytes are not zero is accepted |
| `Nfit.EmptyStringAccepted` | src/acpi/nfit/nfit.c:94-104 | A region that ends in two zero bytes is accepted although it is the encoding of no list of structures |
| `Hest.HestTest1` | src/acpi/hest/hest.c:785-875 | A pass is reported if and only if records of known types tile the bytes behind the header exactly, all field checks pass, and types 0, 1 and 2 occur at most once; terminates on every table |
| `Hest.Walk` | src/acpi/hest/hest.c:801-849 | At its end offset plus remaining length is still the length in the header, or the walk was aborted, in which case the verdict is cleared and no tiling exists |
| `Hest.RecordIs` | src/acpi/hest/hest.c:801-849 | A step of the walk leads over exactly the bytes of one record of types 0, 1, 2 and 6 to 11: 18, 44, 48, 56, 64 or 92 of them, or 40 or 48 and 28 for each bank its bank byte counts |
| `Hest.TilesToTheEnd` | src/acpi/hest/hest.c:801-804 | A tiling leads from byte 40 to the length in bytes 4 to 7 of the table, or has no record if that is less |
| `Hest.TypeReads` | src/acpi/hest/hest.c:804-810 | Along any walk the two bytes of the type are read within the length in the header if and only if the walk does not come to its last byte |
| `Hest.CheckBanked` | src/acpi/hest/hest.c:35-146 | Steps over the base and its banks if they fit; otherwise gives up with the verdict cleared |
| `Hest.CountAtMostOne` | src/acpi/hest/hest.c:850-875 | A type counter is at most one exactly when no two records are of that type |
| `Lpit.LpitTest1` | src/acpi/lpit/lpit.c:127-211 | A pass is reported if and only if structures of type 0 tile the table up to at most eight bytes, all field checks pass, and the IDs climb from zero by at most one |
| `Lpit.StructureIs` | src/acpi/lpit/lpit.c:151-205 | A step of the walk leads over exactly the bytes of one structure of type 0 that is as long as it says and at least 56 bytes |
| `Lpit.TilesAlmostToTheEnd` | src/acpi/lpit/lpit.c:147-151 | A tiling leads from byte 36 to at most eight bytes before the length in the header, which wraps around when it is less than 36 |
| `Lpit.TwoStructures` | src/acpi/lpit/lpit.c:127-211 | Two structures of 56 bytes with good fields pass if and only if the first has ID zero and the second zero or one, each in its bytes 8 and 9 |
| `Lpit.IdReads` | src/acpi/lpit/lpit.c:151-184 | Along any walk all IDs are read within the length in the header if and only if the walk does not end nine bytes in front of it at a structure whose ID is read |
| `Lpit.ClimbsLeavesNoGap` | src/acpi/lpit/lpit.c:174-194 | IDs climb in that way if and only if they are in order and are exactly 0..last with no gap |
| `Dmar.ParseOneDevScope` | src/acpi/dmar/dmar.c:130-190 | OK if and only if the path resolves recursively, every device but the last a bridge, and the last device's kind matches the scope type |
| `Dmar.ResolveMore` | src/acpi/dmar/dmar.c:160-178 | One hop more resolves exactly from a bridge, on its secondary bus |
| `Dmar.TwoHops` | src/acpi/dmar/dmar.c:130-190 | A scope of ten bytes is good exactly if its type is at most 2, the device its first two path bytes name on its bus is a bridge, and the one its last two name on the secondary bus is there, no bridge for type 1 and a bridge for type 2 |
| `Dmar.SegmentsBelow256` | src/acpi/dmar/dmar.c:102-190 | Whatever the table and the devices, scopes are judged by the devices of their own segment if and only if its number is below 0x100 |
| `Dmar.ParseDevScope` | src/acpi/dmar/dmar.c:192-203 | OK if and only if good scopes lead from the start to the end or past it; terminates because each is at least eight bytes long |
| `Madt.ChooseReference` | src/acpi/madt/madt.c:416-431 | In a sorted table the greatest row of the revision with major and minor both at most the FADT's is chosen, or none exactly when there is none |
| `Madt.SpecInfoIsSorted` | src/acpi/madt/madt.c:135-263 | The reference table is sorted by revision and then version |
| `Madt.ChoiceIsNewest` | src/acpi/madt/madt.c:416-431 | The newest version of the revision that is no newer than the FADT is chosen if and only if its minor number is at most the FADT's; otherwise an older row is, or none |
| `Madt.OlderRowChosen` | src/acpi/madt/madt.c:425-428 | With an FADT of version 7.0 and revision 4 the choice is the row of 6.0, although 6.2 is no newer than 7.0 |
| `Madt.NoRowChosen` | src/acpi/madt/madt.c:424-454 | With the same FADT and revision 5 nothing is chosen, although 6.4 is no newer than 7.0 |
| `Madt.SeenIds.IoApic` | src/acpi/madt/madt.c:672-678 | The flag array knows the I/O APIC IDs seen, and failures number their repetitions |
| `Madt.SeenIds.IoSapic` | src/acpi/madt/madt.c:832-838 | The same for I/O SAPIC IDs |
| `Madt.SeenIds.GicMsiFrame` | src/acpi/madt/madt.c:1310-1336 | The list of MSI frame IDs has each ID seen once, and failures number the repetitions |
| `Madt.SeenIds.GicIts` | src/acpi/madt/madt.c:1482-1508 | The same for ITS IDs |
| `Madt.SeenIds.IoApicSapicCompare` | src/acpi/madt/madt.c:1634-1675 | Tells whether there are fewer I/O SAPICs than I/O APICs, and whether some I/O APIC has no I/O SAPIC |
| `Madt.Pigeonhole` | src/acpi/madt/madt.c:1634-1675 | If no I/O APIC ID is repeated and each is an I/O SAPIC ID, there are at least as many I/O SAPICs |
| `Madt.MadtSubtables` | src/acpi/madt/madt.c:1951-2211 | Terminates on every table having visited exactly the running sums of the length bytes; failures of each kind are entries minus distinct IDs; with no repeated and no missing ID the count comparison cannot fail |
| `Madt.SumsAreSteps` | src/acpi/madt/madt.c:1951-2211 | Running sums are steps: the first subtable is at byte 44, and each of the others where the second byte of the one in front of it says |
| `Madt.LogMore` | src/acpi/madt/madt.c:1951-2211 | What a subtable adds to the IDs read: its byte 2 for types 1 and 6, its bytes 4 to 7 for types 13 and 15, and nothing for other types |
| `Checksum.FwtsChecksum` | src/lib/src/fwts_checksum.c:26-35 | The 8-bit loop computes the byte sum modulo 256 |
| `Checksum.SumMore` | src/lib/src/fwts_checksum.c:26-35 | The sum of nothing is zero, and each byte more counts once |
| `Checksum.AcpiUtChecksum` | src/acpica/source/components/utilities/utcksum.c:320-335 | The same over a buffer in memory |
| `Checksum.BalanceIsUnique` | src/acpi/checksum/checksum.c:123-132 | Stored minus sum, modulo 256, is the one and only value of a byte with which the bytes sum to zero |
| `Checksum.Judge` | src/acpi/checksum/checksum.c:119-132 | Correct exactly when the bytes sum to zero; otherwise the expected byte is the only one that would make them |
| `Checksum.ChecksumRsdp` | src/acpi/checksum/checksum.c:33-94 | The first 20 bytes are judged always, all 36 when the revision is not zero, and a short table is reported instead |
| `Checksum.ChecksumScanTables` | src/acpi/checksum/checksum.c:96-143 | Every table gets its report: the RSDP by its own rules, the FACS none, all others by the checksum in their header |
| `TableClone.CloneTable` | src/libfwtsacpica/fwts_acpica.c:1127-1198 | Fails exactly when the search for some entry fails; otherwise the header, entry by entry what is said of `TableClone.CopyEntries`, and zeros behind them, with the checksum such that the bytes sum to zero |
| `TableClone.CopyEntries` | src/libfwtsacpica/fwts_acpica.c:1142-1156 | Fails exactly on a failed search; otherwise entry k of the table, if it is found and no RSDP, stands in the clone behind as many entries as there are such ones in front of it, as the new FADT for a name that starts with FACP and as the address found for others; nothing stands behind them |
| `TableClone.ImagesAre` | src/libfwtsacpica/fwts_acpica.c:1142-1156 | There are as many images as entries that are found and no RSDP, and the image of each stands behind those of the ones in front of it and is the new FADT for FACP and the address found for others |
| `TableClone.Repair` | src/libfwtsacpica/fwts_acpica.c:1118-1119 | Only the checksum byte changes, and the bytes then sum to zero (FADT, XSDT and RSDT alike) |
| `TableClone.CloneRsdp` | src/libfwtsacpica/fwts_acpica.c:1200-1217 | Only the two addresses and the checksum change; the first 20 bytes sum to zero if and only if the checksum byte was zero in the source, and the first 36 if and only if bytes 20 to 35, with the new address, sum to that byte modulo 256 |
| `TableClone.RightRsdpClonedWrong` | src/libfwtsacpica/fwts_acpica.c:1200-1217 | The clone of one RSDP whose two sums are right has neither of them right |
| `TableClone.KeptIsModulo` | src/libfwtsacpica/fwts_acpica.c:1180-1192 | A stored entry is the address modulo 256 to the entry's width |

## Left out

- All texts of log messages, advice and warnings, option parsing, and the loading of patterns and tables.
- Memory allocation failure, and failure of `pthread_create` (which leaves its thread slot used).
- Read errors: the end of file is taken to be permanent once it is reached.
- Scan.KernelScan: the list of function names is a parameter whose entries start with a letter, as all 67 names do; the names themselves are not listed.
- LexSpec.Tokens: the type for numbers in the token enumeration is never assigned by the code and is not modelled.
- OsTables.OsLayer.CreateSemaphore: the null pointer check of the handle's address is not modelled.
- OsTables.OsLayer.SemTryWait: time is not modelled; a wait that is blocked or times out makes no step, and the number of units asked for is ignored as in the code.
- OsTables.OsLayer.AddToCount: does not model 32-bit wrap-around of a count, which takes 2^31 operations in one direction.
- OsRuns.SemaphoreAccounting: a slot is deleted only when no operation on it is half done; the code leaves that to its callers.
- OsThreads.CountsAreExactAfterDrain: its condition is on the callbacks that are left; `OsThreads.CountsAreExactIfNothingLate` has the one on the calls. For other runs `OsRuns.SemaphoreAccounting` still holds.
- NhltDump.NhltDumpTest1: the walk only, not the text of the dump.
- TableClone.CloneTable: a table is at least as long as its header and its length fits 32 bits; the copying of the FADT's DSDT and FACS pointers is not modelled, only the repair of its checksum.
- TableClone.CloneRsdp: the table has one of the two lengths of an RSDP, or more; with 21 to 35 bytes the code would write behind its copy.
- Checksum.ChecksumScanTables: the abort when tables cannot be loaded is not modelled; tables other than the RSDP and the FACS are taken to be longer than nine bytes, behind which the code would read their checksum.
- Hest.Walk: the nine handlers share their bookkeeping and are modelled by two methods; the checks of fixed fields are the parameter `fieldsOk`.
- Lpit.LpitTest1: as for HEST, the checks of fixed fields are the parameter `fieldsOk`.
- Madt.MadtSubtables: starts from cleared ID arrays and lists, which the code has in its first run; the other checks of subtables are not modelled, as they all step over the subtable by its length.
- Dmar.ParseDevScope: the loops over DMAR entries, which need an assumption on entry lengths to progress.
- The interactive tests, C-state timing, ioctl, sysfs and device-tree access, and ACPICA itself.
- The tests that check fields of a fixed layout one by one: one branch settles each such check.
