# Models of Darwin build tools

This project models the algorithmic cores of five tools and proves what they
promise, for all inputs or all runs.

* **unifdef** (`Conditional`, `Unifdef*`): the transition table with its stack
  of `#if` states, `flushline` with its options, the driver loop over the
  arrays, and the three-valued expression evaluator. The reference is the
  conditional inclusion of section 6.10.1 of ISO/IEC 9899:1999, written as a
  stack machine on classified lines. The main result is that the file unifdef
  writes means what the file it reads means, whatever the conditions it could
  not decide turn out to be.
* **DWARF line programs** (`Leb128`, `Line*`): the encoder of `dwarf2dbg.c`
  against the line-number state machine of section 6.2 of DWARF 3, with LEB128
  of its section 7.6.
* **MIG** (`Mig*`): the request that a generated user stub packs, the check and
  the reading that a generated server stub performs through shifted structure
  pointers, and the passes of `routine.c` that expand an argument list and give
  arguments their positions. The generated code is modelled as what it does,
  parameterised by the argument list.
* **The assembler** (`Powers`, `BitStream`, `Ieee*`, `Decimal*`, `Expr*`,
  `Relocatable*`): scanning decimal literals into base-65536 digits, packing
  them into IEEE 754 words, the precedence-climbing expression parser, and
  sums of relocatable values.
* **ar** (`Ar*`): the member format, and delete, move and replace on bytes as
  edits of a list of members.

State that a tool updates in place is a class or an array here, its loops are
loops, and each such method is proved against a function or property stated
separately. `Wrappers`, `Arithmetic`, `Bytes` and `Powers` hold what several
models share.

Where the code does not do what its comments or its purpose promise, the model
follows the code, a theorem says exactly when the promise is kept, and another
shows an input where it is not:

* `unifdef`: a literal is stored in an `int`, so `#if 4294967296` is false
  (`LiteralExact`, `LargeLiteralMisread`). An obfuscated `#elif` after a false
  prefix goes from dropping to printing (`ObfuscatedExact`, `TornComment`).
* `dwarf2dbg.c`: a line delta of 2^31-1 modulo 2^32 is taken for the end marker
  (`ProgramDescribesEntries`, `FalseEndExists`).
* `atof-ieee.c`: numbers below the denormals become an infinity, an exponent
  field of all ones is not refused, and a 16-bit denormal that rounds up
  becomes zero (`RoundingExact`, `StoredAsInfinity`, `StoredAsNan`,
  `StoredAsZero`); a carry out of the exponent field leaves zero
  (`CarryReachesSign`, `LargeStoredAsZero`).
* `expr.c`: a prefix minus on a symbol with a number does not negate the number
  (`NegationExact`, `NegatedAddendIsWrong`). When a right operand is missing,
  the left one is replaced by zero (`MissingOperandExact`, `SevenPlusNothing`).
  The test for symbols of different sections can never succeed
  (`SectionTestIsDead`, `DifferentSectionsAccepted`).
* `routine.c`: a second count for an argument with sub-counts dereferences a
  null pointer (`CheckRoutineArgs`, `AliasedPortArrayCrashes`).
* `archive.c`: a member with a NUL in its header makes `ar` exit before the
  archive is rewritten (`PutMember`, `NulHeader`). A long name is padded when a
  member is copied, but its length in the header is not, so that members of
  other archivers are not read back (`ArchiveRead`, `OddNameLost`).

One comment is only out of date: `routine.c` says that positions that are not
used are -1, where it leaves them 0, as `MigPositions.Position` does.

## Model

| member | source | states |
|---|---|---|
| UnifdefMeaning.MeaningPreserved | tools/unifdef/unifdef.c:418-503 | For every run that completes and every truth assignment that agrees with the decisions unifdef made, the plain lines surviving in what it keeps, under the conditional-inclusion machine of section 6.10.1 of C99, are those surviving in the input; an obfuscated directive counts as one whole line |
| UnifdefOutput.OutputMeansInput | tools/unifdef/unifdef.c:418-599 | The same on the file that is written: without options exactly the same lines survive, and with -b, -B and -n, in any combination, the same up to blank lines |
| UnifdefOutput.WritesKept | tools/unifdef/unifdef.c:555-580 | Without -B and -s the lines written are exactly the kept ones, and with -c exactly the dropped ones; without -b and -n nothing else is written |
| UnifdefOutput.BlankLinesAreInert | tools/unifdef/unifdef.c:555-580 | Removing the blank lines of a file removes the blank lines among its survivors and changes nothing else |
| UnifdefRun.Filter | tools/unifdef/unifdef.c:586-599 | The driver from the file read to the file written: in every compilation that agrees with the command line, whatever the conditions outside the evaluator's grammar come to, the output means what the file means, for every file whose numbers fit in an int; with -c it is the lines dropped |
| UnifdefObfuscated.ObfuscatedExact | tools/unifdef/unifdef.c:407-414 | A line with an obfuscated directive is kept exactly if the lines after it are; printing or dropping does not change there if and only if it is not an #elif of unknown value after a false prefix, leaving a group included |
| UnifdefObfuscated.ObfuscatedWhole | tools/unifdef/unifdef.c:407-414 | In every run such a directive shares the fate of a plain line after it, and that of a plain line before it if and only if it is not that #elif |
| UnifdefObfuscated.TornComment | tools/unifdef/unifdef.c:466-466 | There the line on which the comment begins is dropped and the line on which it ends is kept |
| UnifdefMeaning.CompletesExactlyWhenWellNested | tools/unifdef/unifdef.c:459-549 | Without obfuscated lines a run completes if and only if the file is well nested and opens fewer than 64 levels at once |
| UnifdefMeaning.Simulation | tools/unifdef/unifdef.c:459-503 | The forward simulation between input and output stacks, from any related pair of stacks on |
| UnifdefMeaning.StepSimulates | tools/unifdef/unifdef.c:459-503 | One accepted line moves the input machine and, by what is printed for it, the output machine so that the stacks stay related, level by level |
| UnifdefMeaning.ActivityAgrees | tools/unifdef/unifdef.c:459-503 | In a dropping state nothing is alive in the input; in a printing state input and output agree on what is alive |
| UnifdefMeaning.TableOpens | tools/unifdef/unifdef.c:441-452 | Every opening entry of the table starts a pair of groups that are coupled again |
| UnifdefMeaning.TableContinues | tools/unifdef/unifdef.c:428-457 | Every #elif and #else entry, edited lines included, moves a coupled pair of groups to a coupled pair |
| UnifdefMeaning.TableCloses | tools/unifdef/unifdef.c:434-439 | Every #endif entry closes the input group and whatever is left of it in the output |
| UnifdefMeaning.RefusalIsJust | tools/unifdef/unifdef.c:419-423 | Without obfuscated lines, an error entry is reached only at a directive that is misplaced in the input or at the nesting limit |
| UnifdefTable.OnlyEofFinishes | tools/unifdef/unifdef.c:459-503 | No entry other than the end of file ends a run successfully |
| UnifdefSafety.StepIsSafe | tools/unifdef/unifdef.c:459-549 | No line reaches an abort; depth stays in 0..63; inside a dropping group every line is dropped and every nested group drops too |
| UnifdefSafety.NeverAborts | tools/unifdef/unifdef.c:459-549 | No run over lines other than error lines ends in abort, whatever the lines are |
| UnifdefFlush.OneVerdictPerLine | tools/unifdef/unifdef.c:425-457 | Every line of a completed run is flushed exactly once |
| UnifdefFlush.BlankingKeepsPlaces | tools/unifdef/unifdef.c:555-580 | With -b every line keeps its index, and -c shows exactly the lines that are blanked without it |
| UnifdefFlush.NumbersRecovered | tools/unifdef/unifdef.c:555-580 | With -n a reader that obeys the #line directives gives every output line its original number |
| UnifdefFlush.BlankCompression | tools/unifdef/unifdef.c:555-599 | With -B the blank lines written between two shown lines number the longest run between deletions, not the sum; at the start of the file runs count only beyond 1000 |
| UnifdefFlush.NonBlankUntouched | tools/unifdef/unifdef.c:555-580 | No option alters, adds, drops or reorders shown lines that are not blank |
| UnifdefProcess.Unifdef.Nest | tools/unifdef/unifdef.c:527-536 | Entering a level in the arrays, or the error, exactly at the deepest level, with nothing changed |
| UnifdefProcess.Unifdef.FlushLine | tools/unifdef/unifdef.c:554-580 | The counters and the output file after one line, against the flushing function |
| UnifdefProcess.Unifdef.FlushAndShift | tools/unifdef/unifdef.c:428-457 | Edit, flush and state change of one action on the arrays and counters |
| UnifdefProcess.Unifdef.Act | tools/unifdef/unifdef.c:419-457 | Every state function on the arrays does what the table entry means on the list of levels |
| UnifdefProcess.Unifdef.ProcessLine | tools/unifdef/unifdef.c:586-599 | One turn of the driver loop is one step of the table |
| UnifdefProcess.Unifdef.Process | tools/unifdef/unifdef.c:586-599 | The driver loop over a whole file ends as the table decides and writes what flushing its verdicts gives |
| UnifdefEval.EvaluatesWritten | tools/unifdef/unifdef.c:817-953 | The evaluator reads every written expression of its grammar completely, gives its three-valued value, and stops where it ends |
| UnifdefEval.TableWritten | tools/unifdef/unifdef.c:922-953 | The same for each row of the precedence table, left associative over the next row |
| UnifdefSound.TableRead | tools/unifdef/unifdef.c:834-953 | Whatever the evaluator accepts is an expression of the grammar, written out token by token, and has the value it returned |
| UnifdefSound.KnownIsRight | tools/unifdef/unifdef.c:755-916 | A known value is the ordinary value in every compilation that extends the symbol table |
| UnifdefSound.StrictLogicIsWeaker | tools/unifdef/unifdef.c:777-786 | Any answer known under -K is the same without -K |
| UnifdefSound.LiteralExact | tools/unifdef/unifdef.c:864-867 | A literal keeps its value if and only if it fits in an int |
| UnifdefSound.LargeLiteralMisread | tools/unifdef/unifdef.c:864-867 | The literal 4294967296 is taken for false |
| UnifdefCorrect.DecisionIsTrue | tools/unifdef/unifdef.c:960-971 | A true or false verdict on an #if expression is the truth about it in every agreeing compilation |
| UnifdefCorrect.UnifdefPreservesMeaning | tools/unifdef/unifdef.c:643-749 | Classification, table and evaluator together: for every file, command line and agreeing compilation the same lines survive in what is kept |
| UnifdefCorrect.TruthExists | tools/unifdef/unifdef.c:834-953 | Every compilation gives every condition a truth value that respects its expression |
| UnifdefCorrect.CompilationExists | tools/unifdef/unifdef.c:834-916 | For every command line there is a compilation that agrees with it |
| UnifdefGrammar.Unambiguous | tools/unifdef/unifdef.c:817-953 | No text is that of two expressions of the evaluator's grammar |
| UnifdefEvalRun.Evaluator.EvalOperand | tools/unifdef/unifdef.c:834-916 | The evaluator with its cursor and value pointer delivers what the evaluation function says, and resets constexpr exactly when a symbol is involved |
| UnifdefEvalRun.Evaluator.EvalRow | tools/unifdef/unifdef.c:922-953 | The operator loop of a row delivers the value of the row |
| UnifdefEvalRun.Evaluator.IfEval | tools/unifdef/unifdef.c:960-971 | The type of an #if line: unknown for constant expressions unless -k, and for errors |
| UnifdefEvalRun.Evaluator.SkipArguments | tools/unifdef/unifdef.c:1092-1112 | Skipping a balanced argument list, or nothing |
| Leb128.UlebRoundTrip | tools/cctools/as/read.c:5176-5193 | Decoding by section 7.6 of DWARF 3 undoes the unsigned encoding, whatever follows it |
| Leb128.SlebRoundTrip | tools/cctools/as/read.c:5149-5173 | Decoding undoes the signed encoding, whatever follows it |
| Leb128.UlebGrows | tools/cctools/as/read.c:5109-5124 | A larger number never has a shorter encoding |
| Leb128.SizeofUleb | tools/cctools/as/read.c:5109-5124 | The sizer returns the length of the encoding |
| Leb128.SizeofSleb | tools/cctools/as/read.c:5067-5085 | The signed sizer returns the length of the encoding |
| Leb128.OutputUleb | tools/cctools/as/read.c:5176-5193 | The writer puts exactly the encoding into the buffer and returns the position behind it |
| Leb128.OutputSleb | tools/cctools/as/read.c:5149-5173 | The signed writer puts exactly the encoding into the buffer |
| LineProgram.SizeIncLineAddr | tools/cctools/as/dwarf2dbg.c:1005-1059 | The sizer returns the number of bytes of the advance, for every int line delta and every 64-bit address delta |
| LineProgram.EmitIncLineAddr | tools/cctools/as/dwarf2dbg.c:1064-1157 | Given that size, the emitter fills exactly that many bytes with the advance and nothing else |
| LineProgram.ReservedIsEnough | tools/cctools/as/dwarf2dbg.c:1257-1259 | The room reserved with the largest address delta is enough for every address delta |
| LineProgram.AdvanceRuns | tools/cctools/as/dwarf2dbg.c:1064-1157 | Run by the machine of section 6.2 of DWARF 3, an advance appends exactly one row with exactly that line and address advance |
| LineProgram.EndRuns | tools/cctools/as/dwarf2dbg.c:1078-1096 | The end marker advances the address, appends the end-of-sequence row and resets the machine |
| LineEntries.ProgramDescribesEntries | tools/cctools/as/dwarf2dbg.c:1375-1483 | For every chain of entries with addresses in order, running the bytes gives one row per entry with its file, line, column, isa, flags and address and then the end row, if and only if no entry lies 2^31-1 lines after its predecessor or 2^31+1 lines before it |
| LineEntries.FalseEndExists | tools/cctools/as/dwarf2dbg.c:1078-1096 | There is an entry list for which a line delta is taken for the end marker |
| LineEntries.RunPlace | tools/cctools/as/dwarf2dbg.c:1433-1457 | Placing one entry appends its row, unless its delta looks like the end marker |
| LineEntries.RunRegisters | tools/cctools/as/dwarf2dbg.c:1393-1412 | The opcodes for changed registers set them and append no row |
| LineEntries.RunFlags | tools/cctools/as/dwarf2dbg.c:1414-1427 | The opcodes for flags set them for the next row only |
| LineEntries.OutIncLineAddr | tools/cctools/as/dwarf2dbg.c:1161-1169 | Sizing and emitting give the bytes of the advance |
| LineEntries.OutEntry | tools/cctools/as/dwarf2dbg.c:1389-1464 | One turn of the loop appends the bytes of the entry and remembers its registers |
| LineEntries.ProcessEntries | tools/cctools/as/dwarf2dbg.c:1375-1483 | The loop over the chain emits exactly the program of the chain |
| MigLayout.Padding | tools/mig/mig_machine.h:7-8 | What is added is below four and makes the size a multiple of four |
| MigLayout.ShiftedOffset | tools/mig/server.c:1118-1134 | A field read through its shifted structure pointer is at its wire offset |
| MigLayout.WireBounds | tools/mig/server.c:1118-1134 | With counts within their maxima the wire offset lies between the minimum and the structure offset, so pointers only move back |
| MigLayout.ExtraBound | tools/mig/routine.c:1802-1843 | Minimum size and array contents never exceed the structure |
| MigUser.ArgSizeExact | tools/mig/user.c:1192-1212 | The 32-bit size expression, aligned only for odd element sizes, is the padded size of the contents when that fits |
| MigUser.PackedStores | tools/mig/user.c:1118-1187 | Packing a field stores it at its place and leaves everything before it alone |
| MigUser.AccountFor | tools/mig/user.c:1242-1303 | The 32-bit message size after an array is the minimum size plus all contents so far |
| MigUser.PackNext | tools/mig/user.c:1318-1363 | One argument: the pointer is moved over the array packed last, the field is stored at its wire offset, and earlier fields stay stored |
| MigUser.PackRequest | tools/mig/user.c:1318-1363 | The whole request: every field at its wire offset and the exact size, or an error at the first array that is too long |
| MigServer.CheckArgSize | tools/mig/server.c:890-918 | Division and comparison in 32 bits refuse exactly the messages without room for the contents, or with more than that for the last array |
| MigServer.CheckMsgSize | tools/mig/server.c:921-972 | The check of one array: it refuses only messages that are not requests, reads the count inside the message, and keeps the running size exact |
| MigServer.AdjustPtr | tools/mig/server.c:1118-1134 | The next structure pointer, moved by the size just checked |
| MigServer.CheckRequest | tools/mig/server.c:2494-2589 | The generated check accepts a message if and only if it is simple and its counts are within bounds and account for every byte; then every pointer is right |
| MigServer.AcceptedSize | tools/mig/server.c:890-972 | An accepted request has exactly the minimum size plus its padded contents, and no multiplication, alignment or addition on the way wraps at 32 bits |
| MigServer.DecodedUnique | tools/mig/server.c:921-972 | Counts a message carries at their wire offsets are the only ones that can be decoded from it |
| MigRoundTrip.PackedIsReceived | tools/mig/server.c:702-747 | A packed request is acceptable, and the values read through the shifted pointers are the values packed |
| MigRoundTrip.ReceivedIsStored | tools/mig/server.c:1005-1026 | Conversely, the values read from any accepted message are ones that packing would have put there |
| MigRoundTrip.Extract | tools/mig/server.c:1005-1026 | Reading the arguments through the pointers gives what is at the wire offsets |
| MigRoundTrip.Deliver | tools/mig/server.c:2494-2589 | User stub, check and extraction in a row: the request is sent exactly if all counts are within bounds, is then accepted, and the values arrive unchanged |
| MigArguments.ElaboratedIsRegular | tools/mig/type.c:454-595 | Every type that a declaration elaborates to without an error, other names for a type included, keeps the relations between its flags on which implicit arguments rely |
| MigArguments.AliasedPortArrayCrashes | tools/mig/routine.c:1019-1035 | Another name for an in-line array of ports makes a CountInOut argument of it dereference a null pointer, which the array itself does not |
| MigArguments.MinTypeSizeAligned | tools/mig/type.c:175-223 | Minimum sizes, and padded maximum sizes of variable arrays, are multiples of four |
| MigArguments.ArrayRoomExact | tools/mig/type.c:179-184 | Rounding bits to bytes gives an array room for exactly its elements, for every length, if and only if elements are whole bytes |
| MigArguments.SpawnedFamilies | tools/mig/routine.c:1111-1155 | The arguments inserted directly behind an argument, once expanded themselves, make up the order arg, poly, countinout, count, count of sub-counts, dealloc |
| MigArguments.FamiliesCrash | tools/mig/routine.c:1111-1155 | No inserted argument brings that null pointer about: the expanded list has such an argument if and only if the original one has |
| MigRoutine.Routine.AddCountArg | tools/mig/routine.c:954-1006 | What is inserted right behind an argument: its own count, to which it then points, or an array of counts with one for each sub-array; never sent where the argument is not, not a field of its own for an in-line array, and of the room the argument has |
| MigRoutine.Routine.AddCountInOutArg | tools/mig/routine.c:1008-1035 | The second count and the count that the argument already has, wherever that is by then, point at each other, and all other pointers still point at the same arguments; it fails exactly if the argument has no count |
| MigRoutine.Routine.Visit | tools/mig/routine.c:1111-1155 | The four insertions for one argument leave them in the documented order, if and only if the argument does not have both sub-counts and a second count; pairs of counts stay linked |
| MigRoutine.Routine.CheckRoutineArgs | tools/mig/routine.c:1111-1155 | The walk over the list it inserts into ends; it succeeds if and only if no argument of the list has both sub-counts and a second count, and then the family of every argument is in place, and every second count is right in front of the count of the array it is for, the two pointing at each other |
| MigPositions.CheckVariable | tools/mig/routine.c:1511-1566 | Positions, number of variable arrays and last position as assigned in place |
| MigPositions.FieldPosition | tools/mig/routine.c:1526-1536 | The position of a body argument is the number of variable arrays before it in the layout |
| MigPositions.CountPosition | tools/mig/routine.c:1544-1547 | The count of an inline array has the position of the array |
| MigPositions.LastPositionIsMaxPos | tools/mig/routine.c:1511-1566 | The last position assigned is that of the last field of the layout, on which the exact size check turns |
| MigPositions.SizeDelta | tools/mig/routine.c:1802-1843 | The difference of the two sizes accumulated with alignment is the sum of the padded maxima of the variable arrays in the request |
| MigPositions.ReservedSumIsDelta | tools/mig/routine.c:1786-1792 | That sum is what the request structure has beyond its minimum size |
| MigPositions.Analyse | tools/mig/routine.c:1511-1566 | All passes together on original arguments: unless the walk fails, families, positions, the number of arrays, the last position and the size difference agree with the layout the stubs use |
| BitStream.TakenTwice | tools/cctools/as/atof-ieee.c:81-107 | Taking bits in two steps is taking them at once |
| BitStream.Stream.NextBits | tools/cctools/as/atof-ieee.c:81-107 | The next bits of the number in the digits, zeros after its end, and the stream without them |
| BitStream.Stream.UngetBits | tools/cctools/as/atof-ieee.c:110-127 | Bits taken from the stream are given back, across the digits |
| IeeeWords.Seek | tools/cctools/as/atof-ieee.c:316-321 | The first significant bit is found and forgotten; the zeros skipped are counted |
| IeeeWords.Carry | tools/cctools/as/atof-ieee.c:523-527 | The carry loop adds one to the number in the words, modulo its size |
| IeeeWords.RoundUp | tools/cctools/as/atof-ieee.c:504-537 | Rounding up adds one unless that changes the sign bit, which leaves zero |
| IeeeWords.Pack | tools/cctools/as/atof-ieee.c:485-538 | Sign, exponent field and fraction rounded half up as one integer, for every width of the exponent field up to 15 bits and any number of words |
| IeeeRounding.GenToWords | tools/cctools/as/atof-ieee.c:243-539 | Zero, denormals, numbers with the exponent field in range, and the others, which become an infinity of their sign, whether too large or too small |
| IeeeDenormal.PackDenormal | tools/cctools/as/atof-ieee.c:338-457 | The denormal branch: the bits placed below the zeros and rounded half up, or an infinity if no bit has a place |
| IeeeWords.CarryHasRoom | tools/cctools/as/atof-ieee.c:504-527 | For an exponent field below the highest, the carry never reaches the sign |
| IeeeWords.CarryReachesSign | tools/cctools/as/atof-ieee.c:528-536 | It reaches the sign if and only if the exponent field is all ones and the fraction rounds up to one |
| IeeeRounding.LargeStoredAsZero | tools/cctools/as/atof-ieee.c:528-536 | A number just below 2^129 is stored in single precision as zero, the carry having reached the sign |
| IeeeRounding.RoundingExact | tools/cctools/as/atof-ieee.c:338-539 | For every number and exponent: the words are a finite number within half a unit in the last place of the exact value if and only if the magnitude is below the infinity, resp. a place is left for a denormal and it is not 16 ones that round up |
| IeeeRounding.NormalExact | tools/cctools/as/atof-ieee.c:485-527 | The same for numbers with an exponent field in range: within half a unit if and only if the rounded magnitude is below the infinity |
| IeeeRounding.DenormalExact | tools/cctools/as/atof-ieee.c:338-457 | The same for denormals: within half a unit unless the fraction has 16 bits and rounds up to 2^16 |
| IeeeRounding.StoredAsNan | tools/cctools/as/atof-ieee.c:485-527 | Three times 2^127 is stored in single precision as a NaN |
| IeeeRounding.StoredAsInfinity | tools/cctools/as/atof-ieee.c:462-484 | A number far below the denormals is stored as an infinity |
| IeeeRounding.StoredAsZero | tools/cctools/as/atof-ieee.c:338-457 | A denormal of 16 ones that rounds up is stored as zero |
| IeeeRounding.DecodesRounded | tools/cctools/as/atof-ieee.c:504-514 | A carry out of the fraction gives the first number of the next binade, which is finite below the infinity |
| DecimalScan.Scan | tools/cctools/as/atof-generic.c:130-221 | The scanner finds the literal, its exponent and its end, and the digits without zeros at either end |
| DecimalValue.TimesTenPlus | tools/cctools/as/atof-generic.c:326-340 | One pass over the array multiplies by ten and adds the digit exactly, the final carry included |
| DecimalValue.UseDigit | tools/cctools/as/atof-generic.c:310-348 | The carry that would abort the program is always zero |
| DecimalValue.Convert | tools/cctools/as/atof-generic.c:296-355 | The array holds the number of the digits used, the mark being stepped over |
| DecimalValue.EnoughLittlenums | tools/cctools/as/atof-generic.c:270-276 | The array is large enough for any number of digits that an int can count |
| DecimalRoom.CloseRatio | tools/cctools/as/atof-generic.c:270-276 | 10^8651 is at most 2^28738, a ratio close enough to the logarithm the code uses |
| DecimalExact.AtofGeneric | tools/cctools/as/atof-generic.c:130-355 | The array times ten to the exponent is the literal cut off behind the useful digits; it is exactly the literal if and only if the digits cut off are zeros, so always for literals within the limit |
| DecimalExact.FirstDigits | tools/cctools/as/atof-generic.c:255-269 | Using only the first digits is exact if and only if only zeros are lost |
| ExprGrammar.ExprRead | tools/cctools/as/expr.c:334-655 | For every token string, expr(rank) reads a stratified, left-associative expression token by token and stops at an operator of rank at most `rank` |
| ExprGrammar.ExprWritten | tools/cctools/as/expr.c:334-655 | Every complete stratified expression in front of an operator of lower or equal rank is read back as itself |
| ExprGrammar.Unambiguous | tools/cctools/as/expr.c:248-263 | So a line begins with at most one such expression |
| ExprParser.Parser.Operand | tools/cctools/as/expr.c:670-1100 | Operands, prefixes and parentheses, closed or not, have the value of their tree under any interpretation |
| ExprParser.Parser.Expr | tools/cctools/as/expr.c:334-655 | The loop computes the value of the parse tree under any interpretation of the operators and moves the line behind it |
| Relocatable.SumDenotes | tools/cctools/as/expr.c:405-504 | A sum without a warning is in normal form and worth the sum of its parts for every address assignment, cancelled symbols included |
| Relocatable.MeaningKept | tools/cctools/as/expr.c:405-504 | Whole expressions: evaluated without a warning, the record stands for the value as written, modulo 2^64, under every later assignment of addresses |
| Relocatable.NegationExact | tools/cctools/as/expr.c:1064-1071 | A prefix minus on a symbol with a number is right if and only if twice the number is zero in 64 bits |
| Relocatable.NegatedAddendIsWrong | tools/cctools/as/expr.c:1064-1071 | Negating a symbol plus five gives five minus the symbol |
| Relocatable.SectionTestIsDead | tools/cctools/as/expr.c:469-495 | The test for symbols of different sections changes no sum or difference of records in normal form |
| Relocatable.DifferentSectionsAccepted | tools/cctools/as/expr.c:469-495 | The difference of two symbols in different sections is accepted without a warning |
| Relocatable.MissingOperandExact | tools/cctools/as/expr.c:361-367 | A missing right operand counts as the zero that is announced if and only if the expression with a zero there is zero modulo 2^64, for + and - if and only if the left operand is |
| Relocatable.SevenPlusNothing | tools/cctools/as/expr.c:361-367 | The line `7 +` evaluates to zero, with a warning |
| RelocatableRun.Expression.CleanUp | tools/cctools/as/expr.c:1114-1157 | Cleaning up a record in place |
| RelocatableRun.ExprPart | tools/cctools/as/expr.c:1185-1275 | Combining two symbols, with its errors and its warning |
| RelocatableRun.Expression.Plus | tools/cctools/as/expr.c:405-504 | The steps of addition and subtraction on records in place |
| ArFormat.FieldRead | tools/cctools/ar/archive.c:225-230 | A number written in a padded field is read back |
| ArMember.ArchiveRead | tools/cctools/ar/archive.c:237-483 | Reading what was written returns the same members and no rest if and only if the length of each long name is a multiple of four, or one short of it among contents that are all NULs |
| ArMember.MemberRead | tools/cctools/ar/archive.c:390-411 | The same for one member in front of any bytes |
| ArMember.OddNameLost | tools/cctools/ar/archive.c:395-405 | A member with a name of 17 bytes, as other archivers write them, can be read and written but is not read back |
| ArMember.EvenOffsets | tools/cctools/ar/archive.c:462-467 | Every member starts at an even offset |
| ArMember.NewHeaderFits | tools/cctools/ar/archive.h:123-124 | A header has its 60 bytes if and only if date, mode and size fit their fields |
| ArMember.NewReadable | tools/cctools/ar/archive.c:308-412 | A file put into an archive can be read back if and only if its fields fit and its name is not empty and within the limit |
| ArMember.NewReadBack | tools/cctools/ar/archive.c:237-300 | It then has its name and its contents |
| ArMember.NewWritable | tools/cctools/ar/archive.c:382-388 | The header made for a file passes the length check if and only if its fields fit |
| ArMember.NulHeader | tools/cctools/ar/archive.c:382-388 | There is a member that can be read but whose header, for a NUL in it, cannot be written back |
| ArFiles.GetArobj | tools/cctools/ar/archive.c:237-300 | The header and long name of the next member, whether or not its contents are all there, leaving the file at its contents; the end; or an exit at a malformed header |
| ArFiles.CopyAr | tools/cctools/ar/archive.c:428-468 | Copying in chunks with pad bytes taken off and put on; it fails exactly if the file is too short |
| ArFiles.PutMember | tools/cctools/ar/archive.c:308-412 | Header, name up to a multiple of four, contents and a newline as pad byte are written for a member just read, if and only if there is no NUL in its header and its contents and pad byte are all there; otherwise the program exits |
| ArFiles.PutFile | tools/cctools/ar/archive.c:308-412 | A file is written as the member made of it if and only if its header has its length |
| ArFiles.SkipArobj | tools/cctools/ar/archive.c:474-483 | Skipping leaves the file at the next member, or at its end if the member is cut off |
| ArCommands.Files | tools/cctools/ar/misc.c:118-133 | The first matching argument is found and removed from the list in place |
| ArEdit.FirstMatchesSelected | tools/cctools/ar/misc.c:118-133 | For every name, as many members are selected as there are arguments for it, and they are the first ones |
| ArEdit.SelectSplits | tools/cctools/ar/move.c:116-136 | Selected and other members each keep their order |
| ArCommands.Delete | tools/cctools/ar/delete.c:86-124 | The archive then parses as the members not selected if and only if each of them reads back, with status 1 if an argument names none; the program exits, with the archive unchanged, if and only if a header is malformed or a member kept has a NUL in its header or is cut off |
| ArCommands.Move | tools/cctools/ar/move.c:90-168 | The archive then parses as the other members with the selected ones at the key or at the end if and only if each of them reads back; without the key it is unchanged; the program exits, with the archive unchanged, if and only if a header is malformed or has a NUL or the last member is cut off |
| ArEdit.MovedIsPermutation | tools/cctools/ar/move.c:99-160 | Moving rearranges the members |
| ArEdit.IndexOfIsFirst | tools/cctools/ar/move.c:124-131 | The key is the first member of its name that is not itself selected |
| ArReplace.Replace | tools/cctools/ar/replace.c:115-206 | Members named are swapped in place, other files land in order at the key or at the end, with status 1 if a file cannot be opened; without the key the archive is unchanged; the program exits, with the archive unchanged, if and only if a header is malformed, a header to be written cannot be, or the last member is cut off and not replaced |
| ArReplace.ReplacedReadsBack | tools/cctools/ar/replace.c:115-204 | The archive left by replace parses as the edited list if and only if each member of it reads back |
| ArReplace.AppendFiles | tools/cctools/ar/replace.c:172-188 | Left-over arguments are appended in order, those that cannot be opened being skipped |
| ArEdit.EveryFileTried | tools/cctools/ar/replace.c:126-188 | Every argument is tried exactly once, so a file that cannot be opened is always noticed |
| ArEdit.SwappedNames | tools/cctools/ar/replace.c:126-149 | Swapping in place changes no name |
| ArEdit.KeyIndexIsFirst | tools/cctools/ar/replace.c:150-164 | The key is the first member of its name that no argument names |
| ArEdit.SwappedAndSelected | tools/cctools/ar/replace.c:126-149 | Replacing uses the same arguments as deleting would, and leaves other members alone |

## Left out

- unifdef: the raw scanner for comments, strings and continuation lines; lines are classified and expressions are tokens, so an obfuscated directive is one line whose neighbours belong to it or not.
- unifdef: `-s`, what `-iD` and `-iU` do beyond the `ignoring` flags, file handling and option parsing; `-B` with `-b` is refused by `main`, so theorems about one exclude the other.
- UnifdefFlush.BlankCompression: counters are unbounded, where the source has unsigned numbers that could wrap after 2^32 lines.
- UnifdefMeaning.MeaningPreserved: an obfuscated directive is taken as one whole line; UnifdefObfuscated.ObfuscatedExact says when the physical lines around it agree.
- UnifdefCorrect.UnifdefPreservesMeaning: literals and symbol values are within an int (exactly the condition of UnifdefSound.LiteralExact), and integer suffixes and unsigned arithmetic of C expressions are not modelled.
- DWARF: targets with 32-bit addresses, fixed advances, the file and directory tables, the chaining of sub-segments, and the frag machinery; a relaxed fragment has the bytes that the converged size gives.
- LineEntries.ProgramDescribesEntries: line numbers are those of a 32-bit register and addresses of 64 bits, in order.
- MIG: kernel-processed descriptors and their checks, strings in requests, NDR conversion, SameCount, optional native pointers, elements with an item number above one, replies, and messages with `PackMsg` off.
- MigUser.PackRequest: the header fields are part of `head` and are not written by the model; only little-endian counts.
- MigServer.CheckRequest: complex messages are represented by one bit, and the message is as long as its header says.
- MigPositions.SizeDelta: sizes are unbounded; a structure above 4 GiB is outside the model.
- MigPositions.FieldPosition: for another name of an in-line array the stubs take the size and item number of the whole array as those of an element; the layout has the element's, which changes neither positions nor the size difference.
- MigArguments.ElaboratedIsRegular: names, translations and transmission types of a declaration are not modelled.
- IeeeRounding.GenToWords: NaN and infinity as input, and the extended and packed formats; exponents are unbounded integers; the words behind the precision, which the denormal branch uses as scratch space, are not specified.
- DecimalExact.AtofGeneric: precisions of at least two littlenums, as callers use, whose number of useful digits an int can hold; logarithms are real numbers, not doubles; the exponent of a literal does not overflow; NaN and infinity are not scanned; the multiplication by a power of ten that follows.
- ExprGrammar.ExprRead: tokens instead of characters, so an operand position that holds `!=`, and `!` as a binary operator, are outside the model.
- Relocatable.MeaningKept: bignums and floating constants, symbols with an attached expression, `try_to_make_absolute` and the marker for halved differences.
- ArFiles.GetArobj: date, owner and mode are not converted, and a negative size is refused here rather than while copying; `long` has 64 bits and `int` the low 32 of them.
- ArMember.ArchiveRead: names truncated with `-T`, and empty members behind a long name of odd length, whose end skipping and copying place differently.
- ArCommands.Delete: archives with such a member, or with one whose size is below the length of its long name, which lseek would skip backwards.
- ArCommands.Move: archives with such a member, or with one whose size is below the length of its long name.
- ArReplace.Replace: archives with such a member, or with one whose size is below the length of its long name; an archive that does not exist yet; `-u`.
- ArMember.NewReadable: dates are not negative, and names are shorter than 10^12 bytes.
- ar: extracting, printing and listing, temporary files as files, locks, partial writes and messages.
- AvailabilityVersions, the input scrubber of the assembler, the linker and the other tools of the repository: tables and plumbing, or not touched by these properties.
