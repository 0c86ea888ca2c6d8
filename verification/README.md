# Verified models of Plan 9 commands

This project models the algorithmic core of eight commands of the Plan 9 source tree and
proves what they are for:

- `dc`: base-100 arithmetic on `Blk` buffers (sum, negation, product, quotient with the
  digit-guessing long division, integer square root by Newton's method, powers) and the
  decimal text that is printed and read back;
- `aan`: the session protocol that survives cut connections, as two endpoints and the wires
  between them, over every interleaving of steps and every pattern of cuts;
- `ed`: the two-buffer store of lines, the line-address array with its in-place moves and
  deletions, and the global command with its fast deletion;
- `ar`: the member queues that spill to disk, the symbol directory whose offsets are computed
  before the members are written, and the move command;
- `ecp` and `fcp`: a copier that retries failed blocks sector by sector, and one whose
  workers share a file offset;
- `factor`: trial division on a 48-step wheel;
- `dd`: blocking and unblocking of records.

Code that updates objects, arrays or linked chains in place is modelled with classes, arrays
and loops, each method proved against a function of its inputs or of the old state; the two
concurrent programs (`aan`, `fcp`) are state machines, and the theorems about them hold in
every state of every run. Choices made by the outside world (which transfers fail, which
allocations run short, how long reads are, what a pattern matches, what an editing script
does) are parameters that the theorems quantify over.

Files: `Dc*.dfy`, `Aan*.dfy`, `Ed*.dfy`, `Ar*.dfy`, `Ecp.dfy`, `Fcp.dfy`, `Factor.dfy` and
`Dd.dfy`; one module per file. `dafny verify dfyconfig.toml` checks everything.

## Where the code does not do what it seems to promise

- `ed` marks a line by setting the low bit of its address, and with 32-bit runes that bit is
  not masked off when the line is read. Through a marked address a line with text reads
  without its first rune; an empty line reads right exactly if a zero happens to follow it
  (`EdSession.ReadableIffUnmarked`, `EdSession.FetchMarked`).
- A line that does not fit the temporary file takes output on to the last block. If lines end
  in the block it was to start in, the next `putline` writes stale contents over them, unless
  that block is the one last read; and then exactly those lines are lost. As long as this
  has not happened every fetch is right, and it does happen in a script that `ed` can run
  (`EdSession.RunScript`, `EdSession.FetchEach`, `EdSession.LoseLine`).
- `g/re/d` that deletes a single line leaves dot where it was, on the same index or the last
  line, while `d` at that line would put dot after it; with two lines or more, dot is where
  `d` in turn would put it (`EdGlobal.SweepDotIsTurnDot`).
- `v/re/d` on an empty buffer takes the fast path and removes line zero, where `d` run line by
  line reports an error; in all other cases the two agree (`EdCommand.FastDeletion`).
- A worker of `fcp` writes from the start of its buffer even when the last read filled a later
  part of it. With reads of any length all finished runs copy exactly if and only if the file
  is constant in each block (`Fcp.AnyReadsIff`, `Fcp.ShortReadSpoils`); with reads short only
  at the end of the file every finished run does (`Fcp.CopyIsExact`).
- `dcexp` has a branch for negative exponents that is wrong for a base of minus one
  (`DcExp.NegativeExponent`), but nothing in `dc` reaches it: `^` takes the sign off the
  exponent first, and is right for every base (`DcPower.Raise`).
- A side of `aan` that only listens stops the other after ten messages: acks come back on
  messages alone, those of idle frames are ignored (`AanTalk.OneSided`). With both sides
  talking any number of messages gets through (`AanTalk.Conversation`).
- `dc` prints a fraction below one with a zero before the point exactly if its scale is odd and
  its first digit is not zero (`DcPrint.SpellingOfValue`): `0.5`, but `.50`.
- `ecp -e n` gives up after n failures in a row if they begin with the first sector, after n+1
  if they begin elsewhere, and never once something went well on that file (`Ecp.CopyFile`).
- `sectsleft` of `ecp` wraps around for a count of zero and reports a whole block
  (`Ecp.SectsLeft`).

## Model

| member | source | states |
|---|---|---|
| DcBlk.Blk.SputC | sys/src/cmd/dc.c:37-38 | appends one cell, growing the block if it is full |
| DcBlk.Blk.SalterC | sys/src/cmd/dc.c:39-41 | overwrites at the read cursor, or appends at the end |
| DcBlk.Blk.SeekC | sys/src/cmd/dc.c:2144-2172 | places the cursor, extending the contents when it lies beyond them |
| DcBlk.Blk.SbackC | sys/src/cmd/dc.c:35 | steps back and reads, or gives -1 at the beginning |
| DcBlk.Blk.More | sys/src/cmd/dc.c:2187-2215 | growing keeps what was there |
| DcRadix.ValSign | sys/src/cmd/dc.c:1392-1425 | the top cell alone tells whether the value is negative, for numbers in the form dc keeps |
| DcAdd.ChSign | sys/src/cmd/dc.c:1392-1425 | the value is negated in place, for both signs, and the result has digits 0..99 with at most a top -1 |
| DcAdd.Complement | sys/src/cmd/dc.c:1398-1408 | the digit loop of the hundred's complement |
| DcAdd.Add | sys/src/cmd/dc.c:1761-1809 | the exact sum of the two values for all lengths and signs, in canonical form |
| DcAdd.AddColumns | sys/src/cmd/dc.c:1767-1788 | the carry loop with its sign digit produces the sum before trimming |
| DcAdd.FoldNines | sys/src/cmd/dc.c:1798-1807 | nines below the sign digit are folded without changing the value |
| DcMult.Mult | sys/src/cmd/dc.c:1334-1390 | the exact product for all lengths and signs, canonical if the operands are |
| DcMult.MultDigits | sys/src/cmd/dc.c:1360-1381 | the schoolbook double loop in one result buffer computes the product of magnitudes |
| DcMult.MultRow | sys/src/cmd/dc.c:1364-1380 | one row adds a digit times the multiplicand at its offset |
| DcEstimate.StepBelow | sys/src/cmd/dc.c:864-884 | below the last position a guessed digit is at most 120, never too large, and leaves less than 6/5 of the divisor |
| DcEstimate.StepLast | sys/src/cmd/dc.c:864-884 | at the last position the guess is off by at most one, and the flag says on which side |
| DcDiv.GuessDigit | sys/src/cmd/dc.c:866-884 | the digit computed through the cursor is the guess that the error bound is about |
| DcDiv.MulByDigit | sys/src/cmd/dc.c:885-893 | the divisor times a digit up to 120, with every cell in range |
| DcDiv.SubtractAt | sys/src/cmd/dc.c:894-906 | subtraction at an offset with borrow; every cell stays within a signed char |
| DcDiv.MergeTop | sys/src/cmd/dc.c:911-918 | the top cell merged down as +100 stays at or below 127 and keeps the value |
| DcDiv.DivLoop | sys/src/cmd/dc.c:864-919 | the loop over positions: dividend = quotient digits times divisor plus what is left, at every position, with only the last digit possibly off |
| DcDiv.Repair | sys/src/cmd/dc.c:920-939 | one correction of the last digit makes the remainder lie in 0..divisor-1 |
| DcDiv.CarryQuotient | sys/src/cmd/dc.c:941-952 | digits above 99 are carried upwards without changing the value |
| DcDiv.DivLong | sys/src/cmd/dc.c:849-952 | division of magnitudes when the dividend is at least as long as the divisor |
| DcDiv.Div | sys/src/cmd/dc.c:816-974 | dividend = q * divisor + rem, abs(rem) < abs(divisor), rem zero or with the dividend's sign; a zero divisor gives no remainder |
| DcDiv.TruncDivUnique | sys/src/cmd/dc.c:816-974 | that determines quotient and remainder |
| DcRoot.NewtonStep | sys/src/cmd/dc.c:1088-1107 | an iterate above the root goes strictly down and not below the root; otherwise it is the root |
| DcRoot.StartRoot | sys/src/cmd/dc.c:1067-1087 | the start value is not below the root |
| DcRoot.DcSqrt | sys/src/cmd/dc.c:1061-1112 | ends for every positive p with r*r <= p < (r+1)*(r+1) |
| DcRoot.RootUnique | sys/src/cmd/dc.c:1061-1112 | that determines the root |
| DcExp.SquareMultiply | sys/src/cmd/dc.c:1133-1149 | the halving loop ends and agrees with repeated multiplication |
| DcExp.DcExp | sys/src/cmd/dc.c:1114-1169 | base^e for e >= 0, and the shortcut's digit for e < 0 |
| DcExp.NegativeExponent | sys/src/cmd/dc.c:1150-1164 | the shortcut, which no caller in `dc` reaches, is the truncated reciprocal if and only if the base is not -1 with an even exponent or in its second spelling |
| DcExp.MinusOneSquared | sys/src/cmd/dc.c:1150-1164 | a concrete case in which that branch would fail |
| DcPower.Raise | sys/src/cmd/dc.c:320-371 | `^` on a base without decimals: the power for e >= 0; for e < 0 one over the power, truncated to k places, for every base; too big exactly from ten thousand on, division by zero exactly for a zero base |
| DcPower.TwoDigits | sys/src/cmd/dc.c:333-335 | the length test on the exponent is a test of its value |
| DcPower.OneOver | sys/src/cmd/dc.c:364-371 | the division of one with k zeros by the power, and when there is none |
| DcPower.ReciprocalAtZero | sys/src/cmd/dc.c:364-371 | at precision zero a negative exponent gives 1 for base 1, the sign by parity for -1, and 0 for all larger bases |
| DcPrint.Tenot | sys/src/cmd/dc.c:1618-1666 | what goes out is exactly the number's spelling, digit by digit, and a newline, folded with backslash and newline where a line of the given length is full and nowhere else |
| DcPrint.SpellingOfValue | sys/src/cmd/dc.c:1618-1666 | the spelling of a number in dc's form: the whole part in decimal without leading zeros, nothing if it is zero but for a lone zero when the scale is odd and the first digit is not zero, a point, and exactly as many digits as the scale says |
| DcPrint.Printer.Pair | sys/src/cmd/dc.c:1625-1633 | a base-100 digit goes out as two decimal digits, or as one if it is small and comes first |
| DcPrint.Printer.Straddle | sys/src/cmd/dc.c:1641-1646 | the cell that the point splits |
| DcPrint.Printer.Test2 | sys/src/cmd/dc.c:46-47 | two characters are counted, and the line is folded when it is full; a folded line has at most one character too many |
| DcPrint.LeadingZeros | sys/src/cmd/dc.c:1648-1651 | zeros after the point bring the scale down to the digits left |
| DcText.PrintedReads | sys/src/cmd/dc.c:1256-1297 | a reader of printed text ends with the value and the scale, whatever the line length |
| DcText.Add0 | sys/src/cmd/dc.c:1308-1332 | the value times ten to the power ct |
| DcText.Scale | sys/src/cmd/dc.c:1874-1890 | value * 10^n / base^n truncated, with n as the scale cell |
| DcText.ScaleTen | sys/src/cmd/dc.c:1874-1890 | with base ten scaling changes nothing |
| DcText.ReadDigits | sys/src/cmd/dc.c:1256-1297 | the reading loop computes what the reader's state machine says, with the point, backslashes and the limit of 99 places |
| DcText.Readin | sys/src/cmd/dc.c:1256-1306 | value and scale of any text, with input base ten |
| DcText.RoundTrip | sys/src/cmd/dc.c:1618-1666 | printed and read back, every digit string with a scale up to 99 keeps value and scale |
| AanStream.StreamSevered | sys/src/cmd/aan.c:278-309 | what a cut leaves of a stream of frames is still a stream of frames, with at most a torn last body |
| AanInv.NextInv | sys/src/cmd/aan.c:185-246 | every step of either endpoint and every cut keeps the invariant |
| AanInv.RunInv | sys/src/cmd/aan.c:185-425 | the invariant holds in every state of every run |
| AanInv.SendLink | sys/src/cmd/aan.c:185-246 | what the send loop puts on the wire continues the stream the other side expects |
| AanInv.MainSynchronizeLink | sys/src/cmd/aan.c:405-425 | resending all unacknowledged messages starts the new connection at or before what the other side has seen |
| AanInv.NetFrameLink | sys/src/cmd/aan.c:278-334 | a frame is accepted only if it is the next message, and skipped if it was seen |
| AanInv.ClientReadLocal | sys/src/cmd/aan.c:252-276 | reading from the client queues the next number |
| AanSafety.DeliveryIsPrefix | sys/src/cmd/aan.c:185-425 | in every run each side's delivered bytes are a prefix of what the other side read, and all of it once the end was seen |
| AanSafety.AckLoopAlwaysSafe | sys/src/cmd/aan.c:335-349 | acks of accepted frames never fall below the last one, the loop never waits, and its assertion is never hit |
| AanSafety.BuffersAlwaysConserved | sys/src/cmd/aan.c:226-231 | `unacked` is exactly the messages from the first unacknowledged to the last sent, and the ten buffers are conserved, so no channel is ever full |
| AanSafety.RunGrows | sys/src/cmd/aan.c:185-425 | nothing delivered, read or acknowledged is taken back between two states of a run |
| AanAcks.AcksCurrent | sys/src/cmd/aan.c:226-231 | a message sent between two states of a run carries an ack for all that was received before the first and for nothing not received before the second |
| AanAcks.AckExact | sys/src/cmd/aan.c:226-231 | the ack of a message is what had been received when it was stamped |
| AanAcks.StopsAtEnd | sys/src/cmd/aan.c:185-360 | in every run a side is done only if it sent its end of file or saw the other's |
| AanTalk.Conversation | sys/src/cmd/aan.c:185-360 | for any two lists of messages of the same length there is a run in which each side reads its own and delivers the other's, although there are ten buffers |
| AanTalk.OneSided | sys/src/cmd/aan.c:226-334 | a side that hears no message reads at most ten |
| AanTalk.Unanswered | sys/src/cmd/aan.c:226-334 | and ten it can read, and have delivered |
| AanTalk.NeverFarAhead | sys/src/cmd/aan.c:226-349 | no side is more than ten messages ahead of what it knows to have arrived |
| AanSafety.RecoversLostMessage | sys/src/cmd/aan.c:361-425 | for every message there is a run that loses it, redials and delivers it |
| EdStore.Store.GetBlock | sys/src/cmd/ed.c:1041-1074 | makes a block addressable in one of the two buffers without changing what the flat array shows |
| EdStore.Store.PutLine | sys/src/cmd/ed.c:1002-1030 | fails exactly if the line reaches past the last block, else it is at the returned address; text in other blocks is always kept; text in the line's own block is kept if that block is in a buffer or was never written, and otherwise the block shows the old output buffer; where output is afterwards |
| EdStore.Store.GetLine | sys/src/cmd/ed.c:982-1000 | from any address: the runes up to the first zero, across blocks, or failure at the first block that is not there; which blocks it loads; the flat array stays |
| EdStore.MaskRounds | sys/src/cmd/ed.c:1027-1028 | the next address is even and past the line |
| EdSession.RunScript | sys/src/cmd/ed.c:982-1074 | over any sequence of stores and fetches, going on after failures: every reply is right as long as no store was made in a block with lines that a failed store had left and that was not the one last read; a fetch of a line so struck is wrong |
| EdSession.FetchEach | sys/src/cmd/ed.c:982-1074 | if no store has struck before the last operation, all lines can be fetched after it if and only if it does not strike |
| EdSession.StrikeIff | sys/src/cmd/ed.c:1002-1074 | of the lines in the store, exactly those that end in the struck block are lost |
| EdSession.StoreOne | sys/src/cmd/ed.c:1002-1030 | one store keeps the invariant of the line store unless it strikes |
| EdSession.LosingScriptStrikes | sys/src/cmd/ed.c:1002-1074 | a script of lines within the limit that reaches a strike |
| EdSession.LoseLine | sys/src/cmd/ed.c:982-1074 | that script run: a line stored before does not come back |
| EdSession.ReadableIffUnmarked | sys/src/cmd/ed.c:1041-1074 | stored text, empty or not, is at its marked or unmarked address if and only if the mark is clear, or the line is empty and a zero follows it |
| EdSession.MarkedLine | sys/src/cmd/ed.c:1041-1074 | a marked address of a line with text has the line without its first rune |
| EdSession.MarkedEmptyLine | sys/src/cmd/ed.c:1041-1074 | a marked address of an empty line has the empty line if and only if a zero follows |
| EdSession.FetchMarked | sys/src/cmd/ed.c:982-1000 | what `getline` returns through a marked address, as an if and only if |
| EdLines.Buffer.Reverse | sys/src/cmd/ed.c:1374-1386 | the stretch is mirrored in place and nothing else changes |
| EdLines.ThreeReversals | sys/src/cmd/ed.c:1360-1368 | three mirrorings swap two adjacent stretches |
| EdLines.MoveIsExchange | sys/src/cmd/ed.c:1356-1369 | swapping the moved lines with those they pass is taking them out and putting them after the target |
| EdLines.MoveAfterKeeps | sys/src/cmd/ed.c:1331-1372 | a move keeps the multiset of lines and line zero |
| EdLines.Buffer.Move | sys/src/cmd/ed.c:1331-1372 | the lines, without marks, end up after the target with dot on the last; a target among them is the error case |
| EdLines.Buffer.CopyLines | sys/src/cmd/ed.c:1340-1349 | the copy form inserts the copies after the target |
| EdLines.AppendThenMove | sys/src/cmd/ed.c:1340-1369 | appending at the end and rotating is inserting |
| EdLines.Buffer.Append | sys/src/cmd/ed.c:809-841 | the new lines go in after the given line, in order, with dot on the last |
| EdLines.Buffer.RDelete | sys/src/cmd/ed.c:941-958 | the lines go, the others keep their order, and where dot is |
| EdGlobal.ApplyMarks | sys/src/cmd/ed.c:1097-1150 | no editing primitive adds a mark |
| EdGlobal.PassDecreases | sys/src/cmd/ed.c:1141-1149 | each pass of the global command strictly lowers the number of marks, for every script |
| EdGlobal.DeleteInTurn | sys/src/cmd/ed.c:1141-1149 | `d` at each marked line in turn leaves exactly the unmarked lines |
| EdGlobal.SweepIsDeletion | sys/src/cmd/ed.c:960-980 | the one-sweep deletion gives the same if and only if line zero is not marked |
| EdCommand.MarkLines | sys/src/cmd/ed.c:1128-1132 | exactly the chosen entries are marked |
| EdGlobal.TraceTells | sys/src/cmd/ed.c:1141-1149 | what a list of commands does is what its commands do one after the other, up to the first error |
| EdGlobal.RunEditsConcat | sys/src/cmd/ed.c:1141-1149 | a list does what its first part does and then, if that succeeds, what the rest does |
| EdGlobal.PassDeletesTwo | sys/src/cmd/ed.c:1141-1149 | a list of two lines `d` deletes two lines, and fails where there is only one |
| EdCommand.ExecuteAll | sys/src/cmd/ed.c:1141-1149 | every command of the list is run in turn on what the one before left, until one fails |
| EdCommand.RunGlobal | sys/src/cmd/ed.c:1141-1149 | each pass runs the whole list at the first marked line, on what the pass before left; the loop ends for every script after at most one pass per marked line, no mark is left, and where dot is if the script is `d` |
| EdCommand.GDelete | sys/src/cmd/ed.c:960-980 | the entries left are the unmarked ones, in order, and where dot is: on the line that follows the last one deleted, or where it was if fewer than two go |
| EdGlobal.SweepDotIsTurnDot | sys/src/cmd/ed.c:960-980 | the sweep leaves dot where `d` in turn does if and only if two lines or more go or dot was there already |
| EdGlobal.TurnDotLast | sys/src/cmd/ed.c:941-958 | `d` in turn ends on the line that follows the last one deleted, or on the last line |
| EdCommand.GlobalDelete | sys/src/cmd/ed.c:1097-1140 | range check, marking and sweep together |
| EdCommand.FastDeletion | sys/src/cmd/ed.c:1134-1140 | fast and slow deletion agree on every command except `v` on an empty buffer |
| ArQueue.Arfile.Insert | sys/src/cmd/ar.c:1071-1080 | the member joins the end of the chain and of the queue's order |
| ArQueue.Arfile.Page | sys/src/cmd/ar.c:1134-1157 | spilling the head changes where members are, not which or in what order |
| ArQueue.Arfile.Stream | sys/src/cmd/ar.c:1085-1111 | every member is written once, in insertion order, from disk and from core |
| ArTool.Ar.Spill | sys/src/cmd/ar.c:1134-1157 | succeeds exactly if the queue has a member in core and a file that is there or can be created, and takes that one member out of core |
| ArTool.Ar.GetSpace | sys/src/cmd/ar.c:1164-1174 | one member leaves core, from the first queue that gives one up, and it fails exactly if none does; contents, sizes and symbols of all three queues stay |
| ArTool.Ar.Armalloc | sys/src/cmd/ar.c:1195-1210 | takes as many members out of core as the allocation needs, and fails only if it needs more and no queue gives one up |
| ArTool.Ar.Alloc | sys/src/cmd/ar.c:1195-1210 | the same as a balance: members in core are those that came less those that the allocations needed, and if every file can be created an allocation fails only if more are needed than ever came |
| ArTool.Ar.ObjSym | sys/src/cmd/ar.c:559-586 | a text or data symbol is entered at its queue's present size, a repeated text symbol is noted instead |
| ArTool.ScanEnters | sys/src/cmd/ar.c:559-586 | without a duplicate every listed symbol of a member is entered, and the size grows by the bytes they need |
| ArTool.Ar.ScanObj | sys/src/cmd/ar.c:518-554 | symbols are collected while all members are objects of one type |
| ArTool.Ar.ArCopy | sys/src/cmd/ar.c:754-767 | a member and its padded size are added to one queue |
| ArTool.PlacedSound | sys/src/cmd/ar.c:518-767 | every member filed keeps sizes equal to the bytes to be streamed and offsets equal to the members' places |
| ArTool.WrSym | sys/src/cmd/ar.c:865-881 | each entry is written with its offset counted from the start of the archive |
| ArTool.Rl | sys/src/cmd/ar.c:817-860 | header, the three lists at their queues' places, and padding |
| ArTool.Ar.Install | sys/src/cmd/ar.c:783-815 | unchanged on a duplicate; otherwise the magic string, the directory if all are objects, and the three queues |
| ArDirectory.DirectorySize | sys/src/cmd/ar.c:817-860 | the size in the directory's header is the bytes of its entries plus padding |
| ArDirectory.DirectoryPoints | sys/src/cmd/ar.c:817-881 | read back, the directory has an entry for exactly the text and data symbols, each at the byte offset of the header of the member that defines it |
| ArFormat.ReadEntries | sys/src/cmd/ar.c:865-881 | entries read back as they were written |
| ArFormat.RefsExact | sys/src/cmd/ar.c:559-586 | the entries of a queue are exactly its listed symbols at their members' offsets |
| ArDirectory.DatedProper | sys/src/cmd/ar.c:829-841 | the directory's header is 60 bytes and its size field reads back |
| ArMove.BaMatch | sys/src/cmd/ar.c:908-933 | the three-state search for the pivot |
| ArMove.StateNext | sys/src/cmd/ar.c:908-933 | over an archive it reports the split at exactly the right member |
| ArMove.Match | sys/src/cmd/ar.c:886-903 | a name matches if it is left, and is used up |
| ArMove.SortedKeeps | sys/src/cmd/ar.c:407-449 | no member is lost or doubled, except a symbol directory that is left out |
| ArOutcome.OutcomeExact | sys/src/cmd/ar.c:407-449 | the archive becomes the unmoved members up to the pivot, the moved ones, and the rest, with a directory if and only if all are readable objects of one type; it is left alone if and only if they are and a text symbol is defined twice |
| ArOutcome.FiledJudged | sys/src/cmd/ar.c:518-613 | the flags kept while scanning say exactly whether all members so far are objects of one type and whether their text symbols are distinct |
| ArMemory.LastsSnoc | sys/src/cmd/ar.c:1195-1210 | memory lasts for one event more exactly if it lasted and the members needed so far have come into core |
| ArMove.Mcmd | sys/src/cmd/ar.c:407-449 | that is what is written for every archive, names, position and pattern of spills, and it succeeds only if, up to every allocation, the members to be spilled are no more than those that have come into core; if every spill file can be created, exactly then |
| Ecp.Read | sys/src/cmd/ecp.c:175-226 | a read that succeeds fills the buffer from the place asked for |
| Ecp.Write | sys/src/cmd/ecp.c:175-226 | a write changes only the sectors asked for |
| Ecp.Transfer | sys/src/cmd/ecp.c:249-261 | succeeds exactly if the device does; the log entry, the file's place, and the mode and counters after success and failure |
| Ecp.TooManyErrors | sys/src/cmd/ecp.c:228-239 | the count of consecutive errors, and exactly when it gives up |
| Ecp.BigTransfer | sys/src/cmd/ecp.c:264-313 | each sector's outcome is that of its last logged transfer, sectors that went well agree, the others are counted, the mode afterwards, and the file is left after the block; it gives up exactly when the log leaves no hope |
| Ecp.BlockLast | sys/src/cmd/ecp.c:264-313 | the outcomes are the last ones in the log, in fast and in slow mode |
| Ecp.SectsLeft | sys/src/cmd/ecp.c:378-391 | a block or what is left, and a whole block for a count of zero |
| Ecp.HopesBad | sys/src/cmd/ecp.c:228-239 | after one failed try more the counters say to give up exactly if the log does |
| Ecp.TriesHope | sys/src/cmd/ecp.c:283-295 | so they do over all tries of a block |
| Ecp.CopySects | sys/src/cmd/ecp.c:407-431 | sectors whose last logged read and write went well are copied, and nothing else changes |
| Ecp.BlocksCover | sys/src/cmd/ecp.c:480-489 | the blocks of a copy have every sector exactly once, in order when going forward |
| Ecp.CopyForward | sys/src/cmd/ecp.c:484-489 | the log is that of the forward blocks, each unseeked transfer at its sector |
| Ecp.CopyReverse | sys/src/cmd/ecp.c:480-483 | the log is that of the blocks from the end, the first possibly empty |
| Ecp.CopyFile | sys/src/cmd/ecp.c:462-489 | unless it gives up: the log is that of the blocks, each unseeked transfer at the file's place; every sector whose last read and last write went well matches the source, whatever became of the others; nothing else changes; the hard errors are the sectors whose last transfer failed. It gives up if and only if the log of one file has no success at all and ends in as many tries as the limit says, each of the sector after the one tried before it, and it does so at the first such moment; files without faults count no error |
| Ecp.CleanExit | sys/src/cmd/ecp.c:462-489 | no hard error means an exact copy |
| Fcp.StepKeeps | sys/src/cmd/fcp.c:191-234 | every step of every worker keeps each block written or in its claimant's hands |
| Fcp.RunKeeps | sys/src/cmd/fcp.c:151-234 | so does every run |
| Fcp.CopyIsExact | sys/src/cmd/fcp.c:151-234 | when all workers are gone the destination is the source, and no block was written by two workers |
| Fcp.CopyHappens | sys/src/cmd/fcp.c:151-234 | for every file and block size there is a run that ends with an exact copy |
| Fcp.OneWriter | sys/src/cmd/fcp.c:191-234 | in every state, writes to one block were made by one worker |
| Fcp.OwnMatter | sys/src/cmd/fcp.c:191-234 | whether a worker can take a step depends on that worker alone |
| Fcp.NeverInTheWay | sys/src/cmd/fcp.c:191-234 | no step of a worker enables or disables a step of another |
| Fcp.AlwaysAStep | sys/src/cmd/fcp.c:191-234 | in every run a worker that is not gone has a step to take |
| Fcp.AnyReadsIff | sys/src/cmd/fcp.c:202-219 | with reads of any length all finished runs copy exactly if and only if the file is constant in each block |
| Fcp.BytewiseRun | sys/src/cmd/fcp.c:202-219 | the run of one-byte reads spreads each block's first byte over the block |
| Fcp.ShortReadSpoils | sys/src/cmd/fcp.c:202-219 | two bytes, and a run whose copy is wrong |
| Factor.Step | sys/src/cmd/factor.c:7-14 | each step of the wheel passes only multiples of 2, 3, 5 and 7 |
| Factor.StepRough | sys/src/cmd/factor.c:78-92 | a step of the wheel passes no divisor of what is left |
| Factor.DivideOut | sys/src/cmd/factor.c:81-85 | dividing out keeps the product and prints a prime |
| Factor.LeftoverIsPrime | sys/src/cmd/factor.c:86-94 | what is left past the root is prime |
| Factor.Factorise | sys/src/cmd/factor.c:48-96 | ends for every n >= 1, printing primes in ascending order whose product is n |
| Dd.Dd.Null | sys/src/cmd/dd.c:398-408 | one character is emitted; full blocks of the output size are written, the rest waits |
| Dd.Dd.Block | sys/src/cmd/dd.c:526-554 | what one character adds and where the column is |
| Dd.Dd.Unblock | sys/src/cmd/dd.c:438-464 | what one character adds, and the spaces held back |
| Dd.RunBlock | sys/src/cmd/dd.c:303-554 | the text written does not depend on the output block size; it leaves in blocks of that size, all but the last |
| Dd.RunUnblock | sys/src/cmd/dd.c:303-464 | the same for unblocking |
| Dd.BlockedPlain | sys/src/cmd/dd.c:526-540 | without a record length `block` copies |
| Dd.UnblockedPlain | sys/src/cmd/dd.c:438-450 | and so does `unblock` |
| Dd.BlockedText | sys/src/cmd/dd.c:526-554 | lines become records, cut or padded |
| Dd.BlockThenUnblock | sys/src/cmd/dd.c:438-554 | both together cut each line at the record length and drop its trailing spaces |
| Dd.RoundTripIff | sys/src/cmd/dd.c:438-554 | `unblock` undoes `block` if and only if no line is too long or ends in a space |

## Left out

- dc: the stack, macros and registers, `%`, `removr`, `removc` and `getdec`, output in other bases, the sign and the lone `0` that `dcprint` prints before `tenot`, and the memory headers; a block is a sequence with two cursors.
- dc input in other bases than ten: `DcText.Scale` is stated for every positive base, `DcText.ReadDigits` for base ten.
- aan: dialling, timers, endpoint lookup and liveness. A header read is all or nothing, a frame is read in one step, counters stay below 2^31, and `synchronize` is one step with respect to the receiving loop.
- dc: `^` on a base with decimal places.
- ed: `getline`'s buffer has no limit in the model, so a line that was overwritten may read longer than `ed` has room for.
- ed: regular expressions (any function of the line number), files other than the temporary one, notes, addresses and the parsing of commands; an editing script is any function from the pass, the entries and dot to a list of edits. Input and output errors of the temporary file are not modelled, and a failed read of a block that was never written leaves the input buffer's number as it was.
- ar: reading an archive's bytes, object files (what the library reports of a member is part of it), the other commands, name trimming, stat failures, the value of padding bytes, and write errors; the hash table of text symbols is a set of names. Archives stay below 2^31 bytes. A queue that does not exist yet is an empty one.
- ecp: verification, progress messages, reblocking and bit rotation; sectors are the unit and files are seekable.
- fcp: workers that fail or are killed (such a run is not a clean finish), and everything around the copying loop.
- factor: floating point; the model is the integer computation, to which the program is faithful below 2^53, and the comparison with the root is made with squares.
- dd: byte swapping, the EBCDIC tables, case conversion, argument parsing and read errors.
- The other commands and libraries of the tree.
