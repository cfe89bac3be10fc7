# Advent of Code solvers, modelled in Dafny

This project models the core of a collection of Advent of Code puzzle solvers written in Rust (years 2019 to 2024). Each puzzle day is one Dafny module, and each module follows the form of its Rust file. Where the Rust code mutates objects in place, the model uses a `class` whose methods carry `modifies` clauses. Where the Rust code loops, the model uses a `method` with loop invariants. Pure expressions and recursion become `function`s and `lemma`s. Every operation is proved against a specification function or property that the solver promises.

Modules:

- `IntCode` (2019): the Intcode virtual machine — memory, instruction pointer, add/multiply/halt, and the run loop.
- `Passports` (2020 day 4): passport fields and their validity rules.
- `Boarding` (2020 day 5): binary seat ids and the missing seat.
- `Handheld` (2020 day 8): the boot-code interpreter, loop detection and the one-instruction repair.
- `Navigation` (2020 day 12): ship and waypoint movement and rotation.
- `Shuttle` (2020 day 13): the earliest bus, the extended Euclidean algorithm and the Chinese remainder theorem.
- `Docking` (2020 day 14): the value mask and the floating address masks over 36-bit words.
- `Memory` (2020 day 15): the memory game of spoken numbers.
- `Homework` (2020 day 18): left-to-right and addition-first expression evaluation.
- `MonsterMessages` (2020 day 19): matching messages against the rule grammar.
- `Bingo` (2021 day 4): boards, marking, wins and unmarked sums.
- `Lanternfish` (2021 day 6): the fish-timer population counts.
- `Syntax` (2021 day 10): chunk parsing with a stack, corruption and completion scores.
- `Origami` (2021 day 13): folding dots along an axis.
- `Packets` (2021 day 16): BITS packet decoding, version sums and evaluation.
- `BitOps` (2021 utilities): testing, setting and clearing bits.
- `Trebuchet` (2023 day 1): calibration digits, written as numerals or spelled out.
- `Fertilizer` (2023 day 5): reverse range mappings from location back to seed.
- `CamelCards` (2023 day 7): hand kinds, with and without jokers.
- `Orbits` (2023 day 8): gcd and lcm.
- `Mirage` (2023 day 9): difference rows and forward and backward extrapolation.
- `Dish` (2023 day 14): tilting the rock platform and the load on the north beams.
- `Lenses` (2023 day 15): the HASH function and the lens boxes.
- `HistorianLists` (2024 day 1): list distances and the similarity score.
- `Reports` (2024 day 2): safe reports, with and without the problem dampener.

`Common`, `Text` and `Arith` hold what the Rust standard library supplies to these solvers: options and results, splitting and searching strings, parsing integers, sums, gcd. They are stated once and used throughout.

## Model

| member | source | states |
|---|---|---|
| Text.StripCr | 2024/src/day01.rs:17 | a line without a carriage return is kept; a line ending in one loses exactly that character |
| Text.Lines | 2024/src/day01.rs:17 | `lines()` gives no lines exactly for the empty text, and no line holds a line feed |
| Text.LinesCons | 2024/src/day02.rs:52 | a line ended by a line feed is the first line, without the carriage return just before the line feed |
| Text.LinesLast | 2020/src/bin/day13.rs:27 | a last line with no line feed after it comes back whole, a final carriage return included |
| Text.Split | 2020/src/bin/day13.rs:33 | `split(',')` gives at least one piece, two or more when the separator occurs, and no piece holds the separator |
| Text.JoinSplit | 2020/src/bin/day13.rs:33 | the pieces joined with the separator give back the text |
| Text.Find | 2020/src/bin/day04.rs:116 | `find` gives a position where the pattern occurs with no earlier occurrence, and None exactly when it occurs nowhere |
| Text.SplitOnce | 2024/src/day01.rs:18 | `split_once` gives the text before and after the first occurrence of the pattern, which put back together are the text; None exactly when the pattern does not occur |
| Text.Trim | 2023/src/bin/day15.rs:13 | `trim` gives text no longer than the input that neither starts nor ends with whitespace |
| Text.TrimPadded | 2023/src/bin/day15.rs:13 | whitespace around text that neither starts nor ends with whitespace is exactly what `trim` removes |
| Text.Words | 2024/src/day02.rs:47 | `split_ascii_whitespace` gives non-empty words with no whitespace in them |
| Text.WordsJoin | 2024/src/day02.rs:47 | non-empty words without whitespace, written with single spaces between them, split back into those words |
| Text.ParseInteger | 2024/src/day01.rs:22-23 | `from_str_radix` gives only values in the type's range, and nothing for the empty text |
| Text.Parse | 2024/src/day01.rs:22-23 | `parse` gives only values within the integer type's range |
| Text.ParseDecimal | 2024/src/day01.rs:22-23 | the decimal digits of a number parse back to that number |
| Text.ParseRender | 2024/src/day01.rs:22-23 | every value of the type written in decimal, with a minus sign when negative, parses back to itself |
| Text.ParseAll | 2024/src/day02.rs:46-49 | `collect::<Result<_, _>>` of the parses succeeds exactly when every piece parses, with one value per piece, in order |
| IntCode.Apply | 2019/src/intcode.rs:92-93 | opcode 1 adds and opcode 2 multiplies two words; a result outside i64 gives no word |
| IntCode.Zeros | 2019/src/intcode.rs:24 | the padding is `n` words, each 0 |
| IntCode.Load | 2019/src/intcode.rs:22-30 | memory is the code followed by `space` zero words, ip 0, not halted |
| IntCode.AddressAt | 2019/src/intcode.rs:43-47 | converts exactly when the cell exists and is non-negative, giving that value; a missing cell is a read failure |
| IntCode.ArithResult | 2019/src/intcode.rs:64-76 | succeeds exactly when both operands and the destination are in memory and the result fits; then it writes the result to the destination and moves ip by 4; a failure changes nothing |
| IntCode.Operands | 2019/src/intcode.rs:85-89 | the three operand addresses are the words at ip+1, ip+2 and ip+3, each converted to an address |
| IntCode.StepResult | 2019/src/intcode.rs:80-107 | a halted machine fails unchanged; 99 halts without moving ip and reports true; 1 and 2 move ip by 4 and report false; any other opcode fails naming it; a failed step changes nothing; memory length is kept |
| IntCode.RunResult | 2019/src/intcode.rs:110-118 | Ok only with the machine halted; memory length is kept |
| IntCode.RunFuelIrrelevant | 2019/src/intcode.rs:110-118 | once the run ends (Ok or an error), more steps allowed give the same outcome and state |
| IntCode.RunHaltedFails | 2019/src/intcode.rs:81 | running a halted machine fails at once and leaves it unchanged |
| IntCode.StepWritesOnlyDest | 2019/src/intcode.rs:64-93 | a successful add or multiply step writes the operation on its two operand cells into the destination cell named by the third operand and leaves every other cell as it was |
| IntCode.ExampleAdd | 2019/src/intcode.rs:92 | `1,0,0,0,99` halts after two steps with cell 0 equal to 2 |
| IntCode.ExampleSelfModifying | 2019/src/intcode.rs:92-96 | `1,1,1,4,99,5,6,0,99` rewrites cell 4 into a multiply and ends with 30 in cell 0 |
| IntCode.ParseProgram | 2019/src/intcode.rs:124-129 | succeeds exactly when every comma-separated piece of the trimmed text parses as i64; word `i` is piece `i` |
| IntCode.Computer.New | 2019/src/intcode.rs:18-20 | the state is the code followed by 16 zero words, ip 0, not halted |
| IntCode.Computer.NewWithExtraCapacity | 2019/src/intcode.rs:22-30 | the state is the code followed by `space` zero words, ip 0, not halted |
| IntCode.Computer.Clone | 2019/src/intcode.rs:10 | a fresh computer in the same state |
| IntCode.Computer.Read | 2019/src/intcode.rs:32-34 | Some exactly when the address is in memory, then the word there |
| IntCode.Computer.ReadRes | 2019/src/intcode.rs:36-41 | Ok exactly when the address is in memory, then the word there; otherwise the failure names the address |
| IntCode.Computer.ReadAddr | 2019/src/intcode.rs:43-47 | the result is the word at the address used as an address: a negative word fails |
| IntCode.Computer.Write | 2019/src/intcode.rs:49-58 | Ok exactly when the address is in memory, then only that cell changes; a failure names the address and the size and changes nothing; ip and halted are kept |
| IntCode.Computer.IsHalted | 2019/src/intcode.rs:60-62 | the halted flag |
| IntCode.Computer.ArithOp | 2019/src/intcode.rs:64-76 | the outcome and new state are those of the arithmetic step described above |
| IntCode.Computer.Step | 2019/src/intcode.rs:80-107 | the outcome and new state are those of the step described above |
| IntCode.Computer.Run | 2019/src/intcode.rs:110-118 | the outcome and new state are those of running with the given step budget; Ok only when halted |
| IntCode.FromStr | 2019/src/intcode.rs:121-132 | None exactly when a piece does not parse; otherwise a fresh computer loaded with the parsed words and 16 zero words |
| Handheld.Indices | 2020/src/bin/day08.rs:88 | the set of valid instruction positions `0..n`, of size `n` |
| Handheld.IndicesBound | 2020/src/bin/day08.rs:88-95 | a visited set of valid positions has at most as many members as there are instructions, so the loop ends |
| Handheld.Step | 2020/src/bin/day08.rs:97-103 | `acc n` adds n to acc and moves ip by 1; `jmp n` moves ip by exactly n; `nop` only moves ip by 1 |
| Handheld.Eval | 2020/src/bin/day08.rs:87-107 | Return only with ip at or past the end, Repeat only at a valid position, each carrying the final acc; a negative ip is the crash the index panics on |
| Handheld.EvalStep | 2020/src/bin/day08.rs:90-104 | at an unvisited valid position the run is one instruction and then the run from where it leads, with one more position visited and no more than the program has |
| Handheld.TraceRunsEachOnce | 2020/src/bin/day08.rs:91-95 | the positions executed are all different and none was visited before: no instruction runs twice |
| Handheld.RepeatRevisits | 2020/src/bin/day08.rs:91-92 | Repeat is returned at a position that was already visited |
| Handheld.EvalIsPlainExecution | 2020/src/bin/day08.rs:90-104 | the final ip and acc are those of plain execution for as many steps as instructions were run |
| Handheld.Program.constructor | 2020/src/bin/day08.rs:30-34 | a program over the instructions with ip 0 and acc 0 |
| Handheld.Program.EvalNoRepeat | 2020/src/bin/day08.rs:87-107 | the result, ip and acc are those of the evaluation above |
| Handheld.Part1 | 2020/src/bin/day08.rs:29-40 | the acc of the first repeat; None exactly when the program does not repeat (the panic) |
| Handheld.Swap | 2020/src/bin/day08.rs:52-56 | the argument is kept, `nop` and `jmp` trade places and `acc` stays |
| Handheld.RepairFromSound | 2020/src/bin/day08.rs:45-76 | a result comes from the first patched candidate that returns, every earlier candidate repeating; None means every candidate that would return comes after one that crashes |
| Handheld.Part2 | 2020/src/bin/day08.rs:42-77 | the loop that patches one instruction at a time and restores it after a repeat gives the search result above |
| Handheld.Mnemonic | 2020/src/bin/day08.rs:137-141 | each kind of instruction has a three-letter name without a space |
| Handheld.ParseInstruction | 2020/src/bin/day08.rs:126-143 | a parsed instruction is named by its own kind (`nop` gives Nop, `acc` Acc, `jmp` Jmp), followed by one space and its i64 argument |
| Handheld.ParseMnemonic | 2020/src/bin/day08.rs:126-143 | conversely, an instruction's name, one space and any text that parses as an i64 parse to that instruction with that argument |
| Packets.BitsValue | 2021/src/bin/day16.rs:50 | the value of `n` bits read most significant first is below 2^n |
| Packets.ToBits | 2021/src/bin/day16.rs:50 | a value written as exactly `n` bits |
| Packets.BitsRoundTrip | 2021/src/bin/day16.rs:50 | reading back `n` written bits gives the value, for every value below 2^n |
| Packets.Take | 2021/src/bin/day16.rs:50 | `take(n)` succeeds exactly when `n` bits remain, advances by `n` and yields a value below 2^n; otherwise the input is incomplete |
| Packets.ParsedLiteral | 2021/src/bin/day16.rs:93-105 | a literal reads at least one 5-bit group and stays within the input |
| Packets.ParsedLengthTypeId | 2021/src/bin/day16.rs:185-198 | a 0 bit is followed by a 15-bit total length (16 bits read), a 1 bit by an 11-bit sub-packet count (12 bits read) |
| Packets.ParsedPacket | 2021/src/bin/day16.rs:49-54 | a packet reads a 3-bit version and a 3-bit type id and at least one bit; it is a literal exactly when the type id is 4 |
| Packets.ParsedContents | 2021/src/bin/day16.rs:145-157 | type id 4 gives a literal and every other type id an operator |
| Packets.ParsedOperator | 2021/src/bin/day16.rs:115-143 | an operator's contents are sub-packets and stay within the input |
| Packets.ByLength | 2021/src/bin/day16.rs:121-132 | the total-length loop reads at least one packet and stops exactly when the bits read since the start equal the length; earlier packets are kept in order |
| Packets.ByCount | 2021/src/bin/day16.rs:133-139 | `NumSubPackets(n)` yields exactly `n` more sub-packets, earlier ones kept in order |
| Packets.ReadLiteral | 2021/src/bin/day16.rs:93-105 | the loop that shifts in the low 4 bits of each group until bit 4 is clear gives the literal described above |
| Packets.ParsePacket | 2021/src/bin/day16.rs:49-54 | the packet described above |
| Packets.ParseContents | 2021/src/bin/day16.rs:145-157 | the contents described above |
| Packets.ReadOperator | 2021/src/bin/day16.rs:115-143 | the two loops give the operator described above |
| Packets.Flatten | 2021/src/bin/day16.rs:33-39 | every packet of the tree, the root first |
| Packets.VersionSumIsSumOfVersions | 2021/src/bin/day16.rs:33-39 | the version sum is the sum of the versions of every packet in the tree |
| Packets.VersionSumAllIsSum | 2021/src/bin/day16.rs:37 | the sum over sub-packets is the sum of the versions of every packet below them |
| Packets.AsI64 | 2021/src/bin/day16.rs:62 | `as i64` on a u64: the value in the i64 range congruent to it modulo 2^64 |
| Packets.MinOf | 2021/src/bin/day16.rs:60 | `min` is an element no larger than any other |
| Packets.MaxOf | 2021/src/bin/day16.rs:61 | `max` is an element no smaller than any other |
| Packets.Eval | 2021/src/bin/day16.rs:56-83 | types 5, 6 and 7 evaluate to 0 or 1; an operator type that evaluates has sub-packets; the panics are None |
| Packets.Groups | 2021/src/bin/day16.rs:93-105 | a literal's nibbles are written as 5 bits each |
| Packets.Encode | 2021/src/bin/day16.rs:49-54 | the bits of a layout: a 3-bit version, a 3-bit type id and then its 5-bit groups, or for an operator its own framing bit, its 11-bit count or 15-bit length and its sub-packets |
| Packets.DecodedAll | 2021/src/bin/day16.rs:115-143 | one packet per sub-packet layout |
| Packets.CanonicalDecodes | 2021/src/bin/day16.rs:41-46 | every packet has a layout that carries it, with every operator framed either way |
| Packets.CanonicalAllDecodes | 2021/src/bin/day16.rs:115-143 | the same for a list of sub-packets |
| Packets.AccumulateNibbles | 2021/src/bin/day16.rs:99 | shifting in the nibbles of a value gives the value back |
| Packets.ParseGroups | 2021/src/bin/day16.rs:93-105 | the literal loop over encoded groups reads them all and shifts in every nibble |
| Packets.FirstGroup | 2021/src/bin/day16.rs:95-101 | the first 5 bits of encoded groups read as one block whose low 4 bits are the first nibble and whose top bit is clear exactly on the last group |
| Packets.ParseHeader | 2021/src/bin/day16.rs:49-51 | the bits of a well-formed layout start with its version and type id |
| Packets.ParseCount | 2021/src/bin/day16.rs:192-195 | a 1 bit and an 11-bit count parse as that sub-packet count |
| Packets.ParseLength | 2021/src/bin/day16.rs:188-191 | a 0 bit and a 15-bit length parse as that total length |
| Packets.ParseEncoded | 2021/src/bin/day16.rs:49-54 | wherever the bits of a well-formed layout sit in the input, parsing there gives the packet it carries and stops right after them; each operator in it may be framed either way |
| Packets.ParseOperatorEncoded | 2021/src/bin/day16.rs:115-143 | the operator part of a layout, framed by count or by length, parses back to its sub-packets |
| Packets.ParseCountFramed | 2021/src/bin/day16.rs:133-139 | a 1 bit, an 11-bit count and the sub-packets parse back to those sub-packets in order |
| Packets.ParseLengthFramedOperator | 2021/src/bin/day16.rs:121-132 | a 0 bit, a 15-bit length and the sub-packets parse back to those sub-packets in order |
| Packets.ParseCounted | 2021/src/bin/day16.rs:134-138 | the count loop over encoded packets reads exactly them |
| Packets.CountedStep | 2021/src/bin/day16.rs:134-138 | one turn of the count loop over encoded packets reads back the first packet and leaves one fewer to read, just past its bits |
| Packets.ParseLengthFramed | 2021/src/bin/day16.rs:123-131 | the length loop over encoded packets reads exactly them and stops at the recorded length |
| Packets.LengthLast | 2021/src/bin/day16.rs:123-131 | the length loop over one encoded packet reads it back and stops there, the length being reached |
| Packets.LengthMore | 2021/src/bin/day16.rs:123-131 | the length loop over two or more encoded packets reads the first, does not stop, and goes on to read all of them |
| Packets.DecodeEncode | 2021/src/bin/day16.rs:49-54 | decoding the bits of any well-formed layout, whatever padding follows, gives back the packet it carries; operators of one transmission may be framed differently |
| Packets.EvalSumProduct | 2021/src/bin/day16.rs:58-59 | sum of 1 and 2 is 3; product of 6 and 9 is 54 |
| Packets.EvalMinMax | 2021/src/bin/day16.rs:60-61 | minimum of 7, 8 and 9 is 7; maximum is 9 |
| Packets.EvalComparisons | 2021/src/bin/day16.rs:63-80 | 5 < 15 gives 1; 5 > 15 gives 0; 5 == 15 gives 0 |
| Packets.EvalNested | 2021/src/bin/day16.rs:56-83 | 1 + 3 == 2 * 2 evaluates to 1 |
| Packets.SolveEncoded | 2021/src/bin/day16.rs:24-31 | on the bits of any well-formed layout, with any padding, `solve` gives the version sum and the value of the packet it carries |
| Packets.Solve | 2021/src/bin/day16.rs:24-31 | Some exactly when the outermost packet parses and evaluates; part 1 is the sum of the versions of every packet in the tree and part 2 its value |
| Packets.VersionSum | 2021/src/bin/day16.rs:33-39 | a packet's version sum is at least its own version |
| Packets.ExampleParses | 2021/src/bin/day16.rs:49-54 | a well-formed layout's bits alone parse to its packet and use all of them |
| Packets.VersionSumExample1 | 2021/src/bin/day16.rs:273-279 | `8A004A801A8002F478`, three nested operators with both framings, has version sum 16 |
| Packets.VersionSumExample2 | 2021/src/bin/day16.rs:282-288 | `620080001611562C8802118E34` has version sum 12 |
| Packets.VersionSumExample3 | 2021/src/bin/day16.rs:291-297 | `C0015000016115A2E0802F182340` has version sum 23 |
| Packets.VersionSumExample4 | 2021/src/bin/day16.rs:300-306 | `A0016C880162017C3686B18A3D4780` has version sum 31 |
| Packets.StructureExample1 | 2021/src/bin/day16.rs:207-217 | `D2FE28` is a version 6 literal of 2021 in three groups, 21 bits long |
| Packets.StructureExample2 | 2021/src/bin/day16.rs:220-241 | `38006F45291200` is a version 1 length-framed operator of type 6 over the literals 10 and 20 |
| Packets.StructureExample3 | 2021/src/bin/day16.rs:244-270 | `EE00D40C823060` is a version 7 count-framed operator of type 3 over the literals 1, 2 and 3 |
| Syntax.Closer | 2021/src/bin/day10.rs:86-91 | the closing bracket that pairs with an opening one; it is not itself opening |
| Syntax.Scan | 2021/src/bin/day10.rs:93-111 | an incomplete outcome carries a stack of opening brackets; a corrupted one names a closing bracket of the line |
| Syntax.ParseChunk | 2021/src/bin/day10.rs:81-112 | the loop over the bytes with its stack gives the scan outcome |
| Syntax.ScanRender | 2021/src/bin/day10.rs:95-105 | a balanced chunk leaves the scan where it was |
| Syntax.ScanRenderAll | 2021/src/bin/day10.rs:95-105 | a run of balanced chunks leaves the scan where it was |
| Syntax.BalancedIsValid | 2021/src/bin/day10.rs:81-112 | every balanced bracket string is Ok |
| Syntax.Completion | 2021/src/bin/day10.rs:45-47 | the closers for a stack, one per open bracket |
| Syntax.CompletionCloses | 2021/src/bin/day10.rs:45-47 | the completion of a stack closes it: scanning it from that stack is Ok |
| Syntax.CompletionMakesValid | 2021/src/bin/day10.rs:45-47 | an incomplete line followed by the completion of its stack is Ok |
| Syntax.CorruptedAt | 2021/src/bin/day10.rs:98-101 | the reported byte is the first closer that does not pair with the top of the stack |
| Syntax.BracketScore | 2021/src/bin/day10.rs:60-68 | each bracket scores between 1 and 4; other bytes have no score (the panic) |
| Syntax.IncompleteScore | 2021/src/bin/day10.rs:59-73 | Some exactly when every byte is a bracket; a non-empty string scores at least 1, and its score modulo 5 is the score of its last bracket |
| Syntax.CorruptScore | 2021/src/bin/day10.rs:27-35 | a byte scores exactly when it is a closing bracket, the closer of some opening one; any other byte is the `unreachable!()` panic |
| Syntax.IncompleteScoreInjective | 2021/src/bin/day10.rs:59-73 | two closers strings with the same score have the same length and the same bracket kinds |
| Syntax.NonEmptyScorePositive | 2021/src/bin/day10.rs:70-72 | a non-empty string scores above 0 |
| Syntax.IncompleteScoreExamples | 2021/src/bin/day10.rs:179-182 | `])}>` scores 294 and `}}]])})]` scores 288957 |
| Syntax.Reverse | 2021/src/bin/day10.rs:46 | `reverse` puts element `k` at position `len - 1 - k` |
| Syntax.ReverseScoresCompletion | 2021/src/bin/day10.rs:45-47 | the reversed stack matches its completion kind by kind, so it scores the same |
| Syntax.MinOf | 2021/src/bin/day10.rs:53-54 | an element no larger than any other |
| Syntax.Without | 2021/src/bin/day10.rs:53-54 | every copy of a value removed, the rest kept |
| Syntax.NthSmallest | 2021/src/bin/day10.rs:53-54 | `select_nth_unstable(k)` gives an element of the scores |
| Syntax.NthSmallestRank | 2021/src/bin/day10.rs:53-54 | the element has at most `k` smaller scores and more than `k` scores no larger: it is the k-th smallest |
| Syntax.Solve | 2021/src/bin/day10.rs:24-57 | the loop over the lines gives the corrupt-bracket total and the middle incomplete score |
| Syntax.StackAlwaysScores | 2021/src/bin/day10.rs:59-73 | the stack left by an incomplete line holds only opening brackets, so its completion always scores and the `unreachable!()` arm is never taken |
| Syntax.TallyNoneStays | 2021/src/bin/day10.rs:33-66 | once a byte has no score, the whole tally fails |
| Docking.Or | 2020/src/bin/day14.rs:86-91 | bit `i` of `x \| y` is set when either bit is |
| Docking.And | 2020/src/bin/day14.rs:86 | bit `i` of `x & y` is set when both bits are |
| Docking.Xor | 2020/src/bin/day14.rs:92 | bit `i` of `x ^ y` is set when the bits differ |
| Docking.SetBit | 2020/src/bin/day14.rs:202-204 | `set_bit(n)` sets bit `n` and keeps every other bit |
| Docking.ClearBit | 2020/src/bin/day14.rs:210-212 | `clear_bit(n)` clears bit `n` and keeps every other bit |
| Docking.Apply | 2020/src/bin/day14.rs:85-87 | `mask` keeps bit `i` when the zero mask has it, and sets it when the one mask has it or the value had it |
| Docking.DefaultKeeps | 2020/src/bin/day14.rs:98-105 | the default mask leaves every 36-bit value unchanged |
| Docking.ParseMask | 2020/src/bin/day14.rs:110-125 | the loop over the characters after the first 7 gives the mask the character-by-character parse describes |
| Docking.StepDescribes | 2020/src/bin/day14.rs:116-121 | one character updates the masks as its position says: `1` sets the one-mask bit, `0` clears the zero-mask bit, `X` leaves both |
| Docking.ParseDescribes | 2020/src/bin/day14.rs:115-122 | the parse succeeds exactly when every remaining character is legal at its position, and then the masks describe the whole text |
| Docking.ParseMaskMeaning | 2020/src/bin/day14.rs:110-125 | from the default mask: Some exactly when every character is `0`, `1` or `X` within 36 positions; the mask then describes the text |
| Docking.ApplyParsed | 2020/src/bin/day14.rs:85-122 | applying a parsed mask sets bit `i` exactly when character `35 - i` is `1`, or `X` with the value's bit set |
| Docking.CharLegal | 2020/src/bin/day14.rs:115-122 | a parsed mask has one-mask bit `i` for a `1` and zero-mask bit `i` for anything but `0` |
| Docking.ParsedFloating | 2020/src/bin/day14.rs:92-122 | both masks stay within 36 bits and their xor marks exactly the `X` positions |
| Docking.PopBelow | 2020/src/bin/day14.rs:162 | the number of set bits below position `i` is at most `i` |
| Docking.PopBelowZero | 2020/src/bin/day14.rs:162 | no set bits are counted below `i` exactly when every bit below `i` is clear |
| Docking.PopCount | 2020/src/bin/day14.rs:162 | `count_ones` is at most 64, zero only for the zero word, and at most 36 for a 36-bit word |
| Docking.PopBelowMono | 2020/src/bin/day14.rs:162 | the count of set bits below a position grows with the position |
| Docking.PopCountWithin36 | 2020/src/bin/day14.rs:162 | a 36-bit word has no set bits from 36 up |
| Docking.FillBit | 2020/src/bin/day14.rs:168-184 | the inner loop sets floating bit `n` to the bit of the iteration number at its rank among the floating bits; other bits keep the address |
| Docking.FloatingAddressBits | 2020/src/bin/day14.rs:161-192 | bit `n` of address number `it` is bit `k` of `it` when `n` is the `k`-th floating bit, otherwise the address's bit |
| Docking.FloatingMask.constructor | 2020/src/bin/day14.rs:89-95 | the address has the one-mask bits set, the floating bits are the xor of the masks, and the count starts at 0 |
| Docking.FloatingMask.Next | 2020/src/bin/day14.rs:161-192 | below 2^(number of floating bits) it yields the address for the current count and counts on; after that None and nothing changes |
| Docking.FloatingAddresses | 2020/src/bin/day14.rs:67 | collects 2^(floating bits) addresses, address `j` being the `j`-th of the iterator |
| Docking.Run | 2020/src/bin/day14.rs:41-56 | after the program, memory holds a value at an address exactly when some line writes to it |
| Docking.LastWriteWins | 2020/src/bin/day14.rs:46-53 | an address holds the masked value of its last write, under the mask in force then |
| Docking.FirstWritesEnumerate | 2020/src/bin/day14.rs:55 | the addresses in order of first write are all different and are exactly the written ones |
| Docking.Part1 | 2020/src/bin/day14.rs:41-56 | the total is the sum of the values held at every written address |
| BitOps.TestBit | 2021/src/utils/bit_ops.rs:14-16 | `test_bit(n)` holds exactly when binary digit `n` of the value is 1 |
| BitOps.MaskedIsDigit | 2021/src/utils/bit_ops.rs:14-16 | masking with `1 << n` gives the mask back exactly when binary digit `n` is 1 |
| BitOps.WithBitSet | 2021/src/utils/bit_ops.rs:10-12 | after `set_bit(n)` bit `n` tests set and every other bit is as it was |
| BitOps.WithBitCleared | 2021/src/utils/bit_ops.rs:18-20 | after `clear_bit(n)` bit `n` is clear and every other bit is as it was |
| BitOps.TestAfterClear | 2021/src/utils/bit_ops.rs:14-20 | after `clear_bit(n)`, `test_bit(n)` does not hold |
| BitOps.MasksDisjoint | 2021/src/utils/bit_ops.rs:11 | the masks `1 << n` and `1 << m` of different positions share no bit |
| BitOps.NoChangeWhenAlready | 2021/src/utils/bit_ops.rs:10-20 | setting a set bit, or clearing a clear one, changes nothing |
| BitOps.SetClearIdempotent | 2021/src/utils/bit_ops.rs:10-20 | setting or clearing twice is the same as once |
| BitOps.Absorb | 2021/src/utils/bit_ops.rs:10-20 | for any mask, or-ing it in after and-ing it out gives the same word as or-ing it in alone, and the reverse; with the mask `1 << n`, clearing then setting bit `n` is just setting it, and setting then clearing is just clearing |
| BitOps.Bits.constructor | 2021/src/utils/bit_ops.rs:9 | the 64-bit value |
| BitOps.Bits.Test | 2021/src/utils/bit_ops.rs:14-16 | `test_bit(n)` holds exactly when binary digit `n` is 1 |
| BitOps.Bits.SetBit | 2021/src/utils/bit_ops.rs:10-12 | the value becomes `value \| 1 << n` |
| BitOps.Bits.ClearBit | 2021/src/utils/bit_ops.rs:18-20 | the value becomes `value & !(1 << n)` |
| Arith.Abs | 2020/src/bin/day13.rs:70 | `abs` gives `x` or `-x`, never negative |
| Arith.TDiv | 2020/src/bin/day13.rs:138 | i64 `/` rounds towards zero; on non-negative operands it is floor division |
| Arith.TRem | 2020/src/bin/day13.rs:107-114 | i64 `%` is `a - (a / b) * b`, smaller than `b` in size and with the sign of `a` |
| Arith.TRemCong | 2020/src/bin/day13.rs:107-114 | the remainder is congruent to `a` modulo `b` |
| Arith.CommonDivisorsStep | 2020/src/bin/day13.rs:138-139 | replacing `a` by `a - q * b` keeps the common divisors of `a` and `b` |
| Shuttle.BezoutStep | 2020/src/bin/day13.rs:138-139 | the new row `old - q * now` keeps the invariant `r == s * x + t * y` |
| Shuttle.EgcdFromBezout | 2020/src/bin/day13.rs:133-144 | the returned row satisfies `g == s * x + t * y` |
| Shuttle.EgcdFromDivisors | 2020/src/bin/day13.rs:137-143 | the returned `g` has exactly the common divisors of the starting rows |
| Shuttle.EgcdFromNonNegative | 2020/src/bin/day13.rs:137-143 | from non-negative inputs `g` is non-negative |
| Shuttle.EgcdCorrect | 2020/src/bin/day13.rs:133-144 | `g == s * x + t * y`; the divisors of `g` are exactly the common divisors of `x` and `y`; `g >= 0` for non-negative inputs |
| Shuttle.Egcd | 2020/src/bin/day13.rs:133-144 | the loop with its two rows gives the extended Euclid result |
| Shuttle.ModInvCorrect | 2020/src/bin/day13.rs:125-131 | Some exactly when the gcd is 1 (otherwise the panic), and then `a * inv` is congruent to 1 |
| Shuttle.BezoutInverse | 2020/src/bin/day13.rs:125-131 | a Bezout coefficient with gcd 1 is an inverse |
| Shuttle.ModInv | 2020/src/bin/day13.rs:125-131 | the method gives the inverse described above |
| Shuttle.Digits | 2020/src/bin/day13.rs:106-115 | the loop pushes one mixed-radix digit per modulus |
| Shuttle.ProductModCong | 2020/src/bin/day13.rs:107 | the product folded with `%` at each step is congruent to the plain product |
| Shuttle.HornerModCong | 2020/src/bin/day13.rs:109-113 | the reversed Horner fold with `%` is congruent to the mixed-radix value of the digits |
| Shuttle.CombineIsMixedRadix | 2020/src/bin/day13.rs:117-120 | the final fold is the mixed-radix value of the digits |
| Shuttle.MixedRadixSplit | 2020/src/bin/day13.rs:117-120 | a mixed-radix value splits at any point into the low part plus the product of the low moduli times the high part |
| Shuttle.GarnerStep | 2020/src/bin/day13.rs:107-114 | the new digit makes the partial value congruent to `u[i]` modulo `m[i]` |
| Shuttle.DigitSolves | 2020/src/bin/day13.rs:106-115 | each digit pushed solves its congruence |
| Shuttle.DigitsSolve | 2020/src/bin/day13.rs:106-115 | the digits up to `i` give a value congruent to `u[i]` modulo `m[i]` |
| Shuttle.CrtSolves | 2020/src/bin/day13.rs:103-123 | the result is congruent to every `u[i]` modulo `m[i]` |
| Shuttle.Crt | 2020/src/bin/day13.rs:103-123 | the two loops give the result described above; None for a failed inverse or no moduli |
| Shuttle.DigitsNoneStays | 2020/src/bin/day13.rs:107 | once an inverse fails, the whole result fails |
| Shuttle.ParseRoute | 2020/src/bin/day13.rs:79-89 | `x` is out of service; a bus number is the parsed integer |
| Shuttle.InService | 2020/src/bin/day13.rs:43-46 | no more bus numbers than routes |
| Shuttle.InServiceMembers | 2020/src/bin/day13.rs:43-46 | a number is listed exactly when some route is the bus with that number |
| Shuttle.Wait | 2020/src/bin/day13.rs:47-50 | the wait `n - ts % n` is between 1 and `n` and ends at a multiple of `n` |
| Shuttle.MinWait | 2020/src/bin/day13.rs:43-48 | Some exactly when there is a bus and no bus number is 0; a bus with the least wait |
| Shuttle.MinWaitFirst | 2020/src/bin/day13.rs:43-48 | on a tie the bus listed first is chosen: every bus before the chosen one waits strictly longer |
| Shuttle.FirstWithLeastWaitTail | 2020/src/bin/day13.rs:47 | a bus that waits less than the head of the list keeps its first-least place when the head is added |
| Shuttle.Part1 | 2020/src/bin/day13.rs:40-53 | Some exactly when there is a bus in service and none is numbered 0; then the wait times the number of the first bus in service with the least wait |
| Shuttle.Offsets | 2020/src/bin/day13.rs:62-68 | one offset per bus in service |
| Shuttle.OffsetsArePositions | 2020/src/bin/day13.rs:57-68 | offset `i` is the list index of the i-th bus in service: that route is the bus with the i-th number, and the offsets increase |
| Shuttle.Part2 | 2020/src/bin/day13.rs:55-71 | the answer `t` meets one sign for all buses: either `t` is congruent to every offset modulo its bus number, or `t + offset` is a multiple of every bus number |
| Shuttle.CrtOneSign | 2020/src/bin/day13.rs:70 | `abs` of a `crt` result solves the whole system, either as it is or negated |
| Shuttle.Part2Defined | 2020/src/bin/day13.rs:55-71 | with at least one bus, every bus number positive and the numbers pairwise coprime, part 2 gives an answer |
| Shuttle.CrtDefined | 2020/src/bin/day13.rs:103-123 | with positive, pairwise coprime moduli and at least one congruence, every `mod_inv` succeeds and `crt` returns |
| Shuttle.CoprimeBezout | 2020/src/bin/day13.rs:125-144 | coprime `a` and `c` have Bezout coefficients with `a * s + c * t == 1` |
| Shuttle.ProductBezout | 2020/src/bin/day13.rs:107 | a product of numbers each coprime to `c` is coprime to `c`: it has Bezout coefficients for 1 |
| Orbits.EuclidDivisors | 2023/src/bin/day08.rs:121-129 | the remainder loop keeps exactly the common divisors of the two numbers |
| Orbits.GcdIsGreatestCommonDivisor | 2023/src/bin/day08.rs:114-130 | the result divides both numbers, and every common divisor divides it |
| Orbits.EuclidBounds | 2023/src/bin/day08.rs:121-129 | the result is at most the larger number and is 0 only when it is |
| Orbits.GcdProperties | 2023/src/bin/day08.rs:115-120 | `gcd(a, a) == a`; `gcd(a, 0) == gcd(0, a) == a`; the order of the arguments does not matter; 0 only for two zeros |
| Orbits.Gcd | 2023/src/bin/day08.rs:114-130 | the early return, the swap and the remainder loop give the gcd described above |
| Orbits.Lcm | 2023/src/bin/day08.rs:132-134 | defined exactly when one argument is non-zero (two zeros divide by zero) |
| Orbits.LcmIsCommonMultiple | 2023/src/bin/day08.rs:132-134 | the result is a multiple of both numbers, and times the gcd it is their product |
| Lenses.Hash | 2023/src/bin/day15.rs:18-22 | the wrapping u8 fold equals the unbounded polynomial `sum c_k * 17^(n-k)` taken modulo 256 |
| Lenses.HashExample | 2023/src/bin/day15.rs:18-22 | `HASH` hashes to 52 |
| Lenses.Part1 | 2023/src/bin/day15.rs:24-26 | the sum of the step hashes is at most 255 per step |
| Lenses.AsText | 2023/src/bin/day15.rs:43 | the bytes of an ASCII step as characters |
| Lenses.IndexOf | 2023/src/bin/day15.rs:33 | the first position of a byte, or None when it does not occur |
| Lenses.ParseStep | 2023/src/bin/day15.rs:33-43 | an assignment is the label before the first `=`, with a `u8` focal length after it; a removal is the step without its last byte when there is no `=`; other steps panic (None) |
| Lenses.FindLabel | 2023/src/bin/day15.rs:37 | the first lens with the label, or None when no lens has it |
| Lenses.Put | 2023/src/bin/day15.rs:37-41 | the new lens is in the box; the box keeps its length, or grows by one when no lens had the label; every lens with another label keeps its place |
| Lenses.Take | 2023/src/bin/day15.rs:44 | `retain` keeps only lenses of the box without the label |
| Lenses.PutInPlaceOrAppend | 2023/src/bin/day15.rs:37-41 | a lens with the label gets the new focal length in place; otherwise the lens is appended; labels stay distinct |
| Lenses.TakeKeepsOrder | 2023/src/bin/day15.rs:44 | removal keeps the other lenses in their order and labels stay distinct |
| Lenses.ApplyStep | 2023/src/bin/day15.rs:32-46 | one step changes only the box of the label's hash and keeps 256 boxes |
| Lenses.ApplyStepInvariant | 2023/src/bin/day15.rs:32-46 | every lens stays in the box of its label's hash and no box holds a label twice |
| Lenses.Arrange | 2023/src/bin/day15.rs:32-46 | the steps applied in order keep 256 boxes; a step that panics gives None |
| Lenses.ArrangeInvariant | 2023/src/bin/day15.rs:32-46 | after all the steps, every lens is in its hash's box and labels within a box are distinct |
| Lenses.Perform | 2023/src/bin/day15.rs:33-45 | the in-place update of one box makes the boxes those of the step applied |
| Lenses.BoxPower | 2023/src/bin/day15.rs:50-55 | box `i`'s power is `i + 1` times the power its lenses would have in box 0: the box factor of `(i + 1) * (j + 1) * focal` comes out of the sum |
| Lenses.Power | 2023/src/bin/day15.rs:48-57 | the total is at least the power of each box |
| Lenses.Part2 | 2023/src/bin/day15.rs:28-58 | the loop over the steps and the final sum give the focusing power of the arranged boxes, or None at a step that panics |
| Reports.WhitespaceCount | 2024/src/day02.rs:53 | the number of ASCII whitespace characters of a line, at most its length |
| Reports.Width | 2024/src/day02.rs:53 | a line's width is its whitespace count plus one, so at least 1 |
| Reports.FromStr | 2024/src/day02.rs:45-60 | Some exactly when every ASCII-whitespace-separated word parses as `u8`; one width per line of `lines()`, each the line's ASCII whitespace count plus one |
| Reports.FinalCarriageReturnCounts | 2024/src/day02.rs:45-60 | `1 2\r` with no line feed is the levels 1, 2 with width 3: `lines()` keeps the final carriage return and it counts as whitespace |
| Reports.RowsFrom | 2024/src/day02.rs:31-39 | the rows yielded from row `row` on are no more than the widths left, and each has the width recorded for it |
| Reports.WidthOfSpacedWords | 2024/src/day02.rs:51-54 | a line of words with one space between them has width equal to its number of words |
| Reports.RowsPartition | 2024/src/day02.rs:31-39 | when the widths add up to the numbers, the rows have those widths, in order, and laid end to end give back the numbers |
| Reports.RowsOfFlatten | 2024/src/day02.rs:31-39 | rows flattened with their lengths recorded are recovered exactly |
| Reports.Rows.constructor | 2024/src/day02.rs:11-18 | a row iterator over the input, at row 0 and number 0, whose remaining rows are all the rows |
| Reports.Rows.Next | 2024/src/day02.rs:31-39 | past the last width None and nothing changes; otherwise row and position advance by the width and the slice is returned when it fits, None when it runs past the numbers; the remaining rows shrink by the one returned |
| Reports.RowIsSafe | 2024/src/day02.rs:63-73 | a report is safe exactly when every step rises by 1 to 3, or every step falls by 1 to 3 |
| Reports.SafeMeans | 2024/src/day02.rs:63-73 | sorted one way and every window of two gentle is the same as every step rising by 1 to 3, or every step falling by 1 to 3 |
| Reports.IncreasingMeans | 2024/src/day02.rs:64 | sorted by `<` means every neighbour is larger |
| Reports.DecreasingMeans | 2024/src/day02.rs:64 | sorted by `>` means every neighbour is smaller |
| Reports.GentleMeans | 2024/src/day02.rs:69-72 | every window of two differs by 1 to 3 |
| Reports.Remove | 2024/src/day02.rs:88-91 | the row with index `skip` removed; an index past the end removes nothing |
| Reports.WalkPairs | 2024/src/day02.rs:93-107 | the loop over neighbouring pairs, stopping at a jump and counting rises and falls, answers exactly whether the levels it walks are safe |
| Reports.RowIsSafeSkipping | 2024/src/day02.rs:87-108 | the counting loop answers exactly whether the row with index `skip` removed is safe |
| Reports.Jump | 2024/src/day02.rs:69-72 | one step outside 1 to 3 makes a report unsafe |
| Reports.CountWhere | 2024/src/day02.rs:75-85 | the number of rows counted is at most the number of rows |
| Reports.SafeCountedByBoth | 2024/src/day02.rs:110-128 | part 2 counts at least as many rows as part 1 |
| Reports.Part1 | 2024/src/day02.rs:75-85 | the loop counts the safe rows |
| Reports.Part2 | 2024/src/day02.rs:110-128 | the loop counts the rows that are safe or safe with one level removed |
| Reports.IsTolerable | 2024/src/day02.rs:114-124 | the inner loop accepts a row exactly when it is safe or safe with some one level removed |
| Reports.ExampleRowsRecovered | 2024/src/day02.rs:160-175 | the example's rows are recovered from the flat numbers and the widths |
| Reports.UnevenRowsRecovered | 2024/src/day02.rs:178-186 | rows `1 2 3 / 1 2 / 1 2 3 4` are recovered in order |
| Reports.ExampleCounts | 2024/src/day02.rs:188-198 | part 1 gives 2 and part 2 gives 4 on the example |
| Reports.ExampleVerdicts | 2024/src/day02.rs:134-141 | the example rows' safety and tolerance, row by row |
| Reports.CountStep | 2024/src/day02.rs:78-82 | one more row adds one to a count exactly when it passes |
| Reports.Intolerable | 2024/src/day02.rs:136-137 | `1 2 7 8 9` and `9 7 6 2 1` stay unsafe whichever level is removed |
| Boarding.BitOf | 2020/src/bin/day05.rs:61-65 | a bit exists exactly for `F`, `B`, `L`, `R`, and is 0 or 1 |
| Boarding.Decode | 2020/src/bin/day05.rs:56-72 | a pass of n letters reads as a number below 2^n |
| Boarding.SeatId | 2020/src/bin/day05.rs:56-72 | the shift-and-or loop yields a seat id exactly when every letter is one of `FBLR` (the panic otherwise is None), and the id is the pass read in binary, wrapping at 64 bits |
| Boarding.ShiftWraps | 2020/src/bin/day05.rs:67-68 | reducing modulo 2^64 before each shift gives the same result as reducing at the end |
| Boarding.ShortPassExact | 2020/src/bin/day05.rs:56-72 | a pass of at most 10 letters gives an id below 1024 that never wraps |
| Boarding.FrontLeftIsZero | 2020/src/bin/day05.rs:62 | a pass of only `F` and `L` is seat 0 |
| Boarding.DecodeAppend | 2020/src/bin/day05.rs:60-69 | reading two passes one after the other shifts the first by the length of the second |
| Boarding.RowAndColumn | 2020/src/bin/day05.rs:57 | a 10-letter pass is row times 8 plus column, with the row below 128 and the column below 8 |
| Boarding.Encode | 2020/src/bin/day05.rs:61-65 | writing a number as a pass of a given length gives a well-formed pass of that length |
| Boarding.DecodeEncode | 2020/src/bin/day05.rs:56-72 | reading back a written number below 2^len gives the number |
| Boarding.EncodeDecode | 2020/src/bin/day05.rs:61-65 | writing back a read pass gives the same bits, in `F`/`B` letters |
| Boarding.Part1 | 2020/src/bin/day05.rs:32-34 | on sorted ids, the last one is the largest id; none when there are no passes |
| Boarding.FirstGap | 2020/src/bin/day05.rs:36-46 | the seat after the first neighbouring pair two apart; None exactly when no neighbouring pair is two apart |
| Boarding.Part2 | 2020/src/bin/day05.rs:36-46 | the window loop returns the first gap |
| Boarding.GapIsFreeSeat | 2020/src/bin/day05.rs:36-46 | on strictly increasing ids, the seat found is missing while both its neighbours are present |
| Navigation.RotateLeft | 2020/src/bin/day12.rs:193-201 | a quarter turn left is defined exactly on the compass points and stays on them |
| Navigation.RotateRight | 2020/src/bin/day12.rs:203-211 | a quarter turn right is defined exactly on the compass points and stays on them |
| Navigation.Rotate180 | 2020/src/bin/day12.rs:213-221 | a half turn is defined exactly on the compass points and stays on them |
| Navigation.LeftUndoesRight | 2020/src/bin/day12.rs:193-211 | turning left undoes turning right and the other way round |
| Navigation.LeftTurnCycle | 2020/src/bin/day12.rs:193-221 | two left turns are a half turn and four give back the start |
| Navigation.Manhattan | 2020/src/bin/day12.rs:163-165 | the Manhattan distance is zero only at the origin |
| Navigation.Translated | 2020/src/bin/day12.rs:133-141 | moving is defined exactly for compass points; it changes one coordinate by the distance and adds at most the distance to the Manhattan distance |
| Navigation.Unit | 2020/src/bin/day12.rs:133-141 | a compass point's unit step has length 1 |
| Navigation.TranslateIsScaledUnit | 2020/src/bin/day12.rs:133-141 | moving is adding the unit step times the distance |
| Navigation.RotatedCcw | 2020/src/bin/day12.rs:143-161 | rotation is defined exactly for ±90, ±180 and ±270 degrees and keeps the Manhattan distance |
| Navigation.RotateInverse | 2020/src/bin/day12.rs:152-157 | rotating by minus the angle undoes a rotation; two quarter turns are a half turn and four give back the point |
| Navigation.LeftIsCcw | 2020/src/bin/day12.rs:193-201 | turning a heading left agrees with rotating its unit step 90 degrees counter-clockwise |
| Navigation.RightIsCw | 2020/src/bin/day12.rs:203-211 | turning a heading right agrees with rotating its unit step by -90 degrees |
| Navigation.HalfTurn | 2020/src/bin/day12.rs:213-221 | a half turn of a heading agrees with rotating its unit step 180 degrees |
| Navigation.OppositeUnit | 2020/src/bin/day12.rs:213-221 | the half-turned heading's unit step is the negated step |
| Navigation.NegatedByHalfTurn | 2020/src/bin/day12.rs:154 | rotating 180 degrees negates both coordinates |
| Navigation.Point.constructor | 2020/src/bin/day12.rs:125-131 | a point at the given coordinates |
| Navigation.Point.Translate | 2020/src/bin/day12.rs:133-141 | moves the point as `Translated` says for compass points; for any other direction (the panic) reports failure and stays put |
| Navigation.Point.RotateCounterClockwise | 2020/src/bin/day12.rs:143-161 | rotates the point as `RotatedCcw` says for the known angles; any other angle (the panic) reports failure and leaves it |
| Navigation.Turned | 2020/src/bin/day12.rs:96-115 | a compass heading turned by 90, 180 or 270 degrees is a compass heading; any other angle is None |
| Navigation.TurnSymmetry | 2020/src/bin/day12.rs:97-112 | turning left by d degrees is turning right by 360 - d |
| Navigation.Ship.constructor | 2020/src/bin/day12.rs:79-84 | a ship at the origin facing east |
| Navigation.Ship.Travel | 2020/src/bin/day12.rs:86-89 | moves the ship in the given direction, or its facing when none is given, and fails without moving off the compass |
| Navigation.Ship.TravelTowardsWaypoint | 2020/src/bin/day12.rs:91-94 | moves the ship by the waypoint times the distance |
| Navigation.Ship.Rotate | 2020/src/bin/day12.rs:96-115 | the new facing is the turned one; an unknown angle reports failure and leaves the facing |
| Navigation.Step1 | 2020/src/bin/day12.rs:41-49 | one part 1 action keeps the ship facing a compass point and panics exactly at a turn by an angle other than 90, 180 or 270 |
| Navigation.Part1 | 2020/src/bin/day12.rs:38-52 | the loop over the actions with a mutable ship ends at the Manhattan distance of the run's final position, or fails when the run does |
| Navigation.Run1 | 2020/src/bin/day12.rs:38-52 | from a compass heading the run keeps the ship on the compass and panics exactly when some turn is not by 90, 180 or 270 degrees |
| Navigation.Step2 | 2020/src/bin/day12.rs:59-66 | one part 2 action panics exactly when it is a turn by an angle other than ±90, ±180 or ±270 |
| Navigation.Run2 | 2020/src/bin/day12.rs:54-70 | the part 2 run panics exactly when some turn is by an angle other than ±90, ±180 or ±270 |
| Navigation.Step2KeepsWaypointDistanceOnTurns | 2020/src/bin/day12.rs:63-64 | turning leaves the ship and the waypoint's distance unchanged |
| Navigation.Part2 | 2020/src/bin/day12.rs:54-70 | the loop with a mutable ship and waypoint starting at (10, 1) ends at the Manhattan distance of the run's final ship, or fails when the run does |
| Navigation.Example1 | 2020/src/bin/day12.rs:38-52 | the five-action sample ends at (17, -8) facing south, distance 25 |
| Navigation.Example2 | 2020/src/bin/day12.rs:54-70 | the five-action sample with the waypoint ends at (214, -72), distance 286 |
| Origami.ParseAxis | 2021/src/bin/day13.rs:150-160 | `x` and `y` are the two axes and every other text is an error |
| Origami.Mirror | 2021/src/bin/day13.rs:102-108 | a coordinate before the fold line stays; one at or after it is reflected to twice the line minus it; one past twice the line (where the `usize` subtraction underflows) is an error |
| Origami.Folded | 2021/src/bin/day13.rs:102-108 | folding a dot reflects its coordinate across the fold's axis and leaves the other coordinate |
| Origami.FoldMirrors | 2021/src/bin/day13.rs:102-108 | a folded dot lands at or before the line, at the same distance from it as before |
| Origami.FoldIdempotent | 2021/src/bin/day13.rs:102-108 | folding a folded dot again along the same line does not move it |
| Origami.FoldMeets | 2021/src/bin/day13.rs:102-108 | two dots land on the same spot exactly when they share the other coordinate and are equal or mirror images across the line |
| Origami.Point.constructor | 2021/src/bin/day13.rs:95-99 | a point holding the given dot |
| Origami.Point.Fold | 2021/src/bin/day13.rs:102-108 | folds the point in place as `Folded` says, and reports failure without moving when the reflection would underflow |
| Origami.FoldSheet | 2021/src/bin/day13.rs:37-39 | folds every dot of the sheet in place, succeeding exactly when every dot can fold |
| Origami.FoldAll | 2021/src/bin/day13.rs:37-39 | the sheet folded dot by dot, in order |
| Origami.FoldNeverAddsDots | 2021/src/bin/day13.rs:37-41 | the visible dots after a fold are the folded images of those before, and never more of them |
| Origami.ImageNoLarger | 2021/src/bin/day13.rs:41 | the image of a set of dots is no larger than the set |
| Origami.Part1 | 2021/src/bin/day13.rs:34-41 | folding every dot along the first instruction and counting distinct dots gives the number of visible dots after that fold |
| Dish.RollState | 2023/src/bin/day14.rs:110-148 | rolling one lane keeps its length, and the first free cell stays within it |
| Dish.RollSnoc | 2023/src/bin/day14.rs:123-147 | one more cell of the lane: space leaves the free cell, a cube moves it past itself, a round rock is swapped into the free cell and the free cell advances |
| Dish.RollFree | 2023/src/bin/day14.rs:123-147 | every cell from the first free one on is empty, the cell just before it is occupied, and cubes stay exactly where they were |
| Dish.RollKeepsRocks | 2023/src/bin/day14.rs:123-147 | rolling a lane keeps the same rocks, only rearranged |
| Dish.RollBlocked | 2023/src/bin/day14.rs:125-131 | no round rock crosses a cube: the part before each cube keeps its rocks |
| Dish.RollSettles | 2023/src/bin/day14.rs:110-148 | after rolling, no round rock has empty space before it |
| Dish.RollSettled | 2023/src/bin/day14.rs:110-148 | a lane already settled is left as it is |
| Dish.RollIdempotent | 2023/src/bin/day14.rs:110-148 | rolling a lane twice is rolling it once |
| Dish.Lane | 2023/src/bin/day14.rs:112-121 | the inner loop visits `inner_lim` cells, reversed for South and East |
| Dish.LanesOf | 2023/src/bin/day14.rs:110 | the outer loop walks `outer_lim` lanes |
| Dish.Contents | 2023/src/bin/day14.rs:123 | the tiles read along a lane, one per cell |
| Dish.PlaceAt | 2023/src/bin/day14.rs:79-90 | writing values along a lane of distinct cells changes those cells only |
| Dish.ApplyLanesDisjoint | 2023/src/bin/day14.rs:110-149 | rolling disjoint lanes one after the other rolls each lane's own contents and leaves every other cell |
| Dish.ApplyLanesSettled | 2023/src/bin/day14.rs:110-149 | when every lane is already settled, the tilt changes nothing |
| Dish.CellUnique | 2023/src/bin/day14.rs:75-77 | within the row width, two cells with the same flat index are the same cell |
| Dish.CellInGrid | 2023/src/bin/day14.rs:75-77 | a cell inside the grid has a flat index inside the tiles |
| Dish.LaneCellIs | 2023/src/bin/day14.rs:112-121 | each lane cell is a grid cell of the lane's column (North, South) or row (East, West) |
| Dish.TiltLanesFit | 2023/src/bin/day14.rs:99-150 | the lanes of a column-wise or row-wise walk stay inside the tiles, visit no cell twice and share no cell |
| Dish.TiltedAt | 2023/src/bin/day14.rs:99-150 | each cell of the tilted grid holds the rolled contents of its lane |
| Dish.NorthTiltSettles | 2023/src/bin/day14.rs:99-150 | after tilting north no round rock has an empty cell directly above it |
| Dish.TiltIdempotent | 2023/src/bin/day14.rs:99-150 | tilting twice in the same direction is tilting once |
| Dish.SquareLanesAgree | 2023/src/bin/day14.rs:100-108 | on a square grid the lanes as written are the column and row lanes |
| Dish.TallLanes | 2023/src/bin/day14.rs:100-108 | on a grid of 2 rows and 1 column the lanes as written are two one-cell lanes, instead of the one column |
| Dish.TallGridSettled | 2023/src/bin/day14.rs:99-150 | on a 2 by 1 grid a rock below a space is unsettled and a rock on top is settled |
| Dish.TallNorthTiltRolls | 2023/src/bin/day14.rs:99-150 | tilting a 2 by 1 grid north moves the rock to the top |
| Dish.TallNorthTiltStalls | 2023/src/bin/day14.rs:100-108 | the tilt as written leaves the rock of a 2 by 1 grid in place, unsettled, where the intended tilt moves it |
| Dish.TallAsWrittenStalls | 2023/src/bin/day14.rs:100-108 | the tilt as written changes nothing on the 2 by 1 grid `. / O` |
| Dish.WideNorthTiltOverruns | 2023/src/bin/day14.rs:100-123 | on a grid of 1 row and 2 columns the lane as written reaches index 2, past the tiles |
| Dish.LaneInvariantStep | 2023/src/bin/day14.rs:123-147 | one step of the inner loop keeps the lane's visited prefix rolled, with `top_free` its first free cell |
| Dish.LoadStep | 2023/src/bin/day14.rs:29-37 | a round rock adds the height minus the first free row to the load of a rolled column |
| Dish.ColumnLoad | 2023/src/bin/day14.rs:27-40 | the inner loop of part 1 gives the load of the rolled column, or fails when a row is too short for the column |
| Dish.Part1 | 2023/src/bin/day14.rs:23-44 | the column loop gives the sum of the rolled columns' loads, and fails exactly when a row is shorter than the first |
| Dish.NorthWeight | 2023/src/bin/day14.rs:152-163 | the weight divides by the row width: it fails only when the width is 0 and there is a round rock |
| Dish.FlattenCell | 2023/src/bin/day14.rs:65-77 | cell (row, col) of the rows is found at its flat index after laying them end to end |
| Dish.SumByColumns | 2023/src/bin/day14.rs:152-163 | summing a grid cell by cell equals summing its column sums |
| Dish.NorthTiltColumn | 2023/src/bin/day14.rs:99-150 | tilting north rolls each column of a rectangular grid |
| Dish.PartOneIsNorthWeight | 2023/src/bin/day14.rs:23-44 | part 1 on a rectangular grid equals the north weight of the north-tilted platform |
| Dish.Platform.constructor | 2023/src/bin/day14.rs:65-71 | the rows laid end to end, with the first row's width |
| Dish.Platform.Swap | 2023/src/bin/day14.rs:79-90 | the same cell stays; otherwise the round rock and the space trade places, keeping the rocks |
| Dish.Platform.RollLaneCell | 2023/src/bin/day14.rs:123-147 | one cell of the inner loop keeps the tiles a rearrangement of the start and extends the rolled part of the lane by that cell |
| Dish.Platform.RollLane | 2023/src/bin/day14.rs:111-148 | the inner loop rolls one lane in place, keeps the rocks and the cubes' cells, and fails exactly when the lane leaves the tiles |
| Dish.Platform.RollLanes | 2023/src/bin/day14.rs:110-149 | the outer loop rolls each lane in turn, failing exactly when a lane leaves the tiles |
| Dish.Platform.TiltAsWritten | 2023/src/bin/day14.rs:99-150 | the tilt with the loop limits as written: it panics on a zero width or a lane outside the tiles, else rolls the lanes as written |
| Dish.Platform.Tilt | 2023/src/bin/day14.rs:99-150 | the intended tilt rolls each column or row, keeps rocks and cubes, and leaves the grid settled after North; it fails only on a zero width |
| Dish.Platform.Spin | 2023/src/bin/day14.rs:92-97 | tilts north, west, south and east in turn |
| Memory.LastSpoken | 2020/src/bin/day15.rs:55 | the last-turn map only holds turns already taken |
| Memory.LastSpokenMeans | 2020/src/bin/day15.rs:55-92 | a number has an entry exactly when it was spoken, and the entry is the last turn it was spoken on |
| Memory.NewThenZero | 2020/src/bin/day15.rs:83-84 | after a number spoken for the first time, the next number is 0 |
| Memory.RepeatThenGap | 2020/src/bin/day15.rs:85-88 | after a repeated number, the next is the gap between its last two turns |
| Memory.NextFromTurns | 2020/src/bin/day15.rs:81-94 | with the `last_is_new` flag and the map kept as the game keeps them, the next number is 0 or the gap read from the map |
| Memory.RecordTurns | 2020/src/bin/day15.rs:88-92 | inserting a new number's turn, or keeping an old number's entry, gives the last-turn map of the longer history |
| Memory.Spoken | 2020/src/bin/day15.rs:76-103 | the first n numbers of the game, n of them |
| Memory.SpokenStarts | 2020/src/bin/day15.rs:81-82 | the game opens with the starting numbers |
| Memory.SpokenPrefix | 2020/src/bin/day15.rs:76-103 | a shorter game is a prefix of a longer one |
| Memory.Record | 2020/src/bin/day15.rs:92-100 | the number is spoken, the turn advances, a new number's entry is its turn, and `last_is_new` says whether the entry is this turn |
| Memory.NextAsWritten | 2020/src/bin/day15.rs:76-103 | as written, `next` gives the starting number while they last, then 0 after a new number, then the gap from the last number's entry, which it moves to the previous turn; it panics (None) exactly when that entry is missing or not earlier than the turn; the turn advances and the spoken number becomes the last |
| Memory.RunAsWritten | 2020/src/bin/day15.rs:76-103 | `n` calls as written give `n` numbers, never panic while still in the starting numbers, and open with the remaining starting numbers |
| Memory.WrittenStep | 2020/src/bin/day15.rs:76-103 | with distinct starting numbers, one call as written from a state the game keeps is the turn of the game with the last number's entry brought up to date |
| Memory.WrittenRun | 2020/src/bin/day15.rs:76-103 | from such a state after `k` turns, `n` calls as written give the rules' next `n` numbers |
| Memory.RulesFromSpoken | 2020/src/bin/day15.rs:76-103 | the next `n` numbers after turn `k`, one at a time, are the game's turns `k` to `k + n` |
| Memory.RunAsWrittenAgrees | 2020/src/bin/day15.rs:76-103 | with no starting number repeated, `n` calls as written never panic and speak exactly the game's first `n` numbers |
| Memory.RepeatedStartGoesStale | 2020/src/bin/day15.rs:81-89 | starting with 1, 1, 1 the game as written says 2 on the fourth turn while the rules ask for 1 |
| Memory.Game.constructor | 2020/src/bin/day15.rs:62-70 | a game at turn 0 with an empty map, last number 0 and not new |
| Memory.Game.Next | 2020/src/bin/day15.rs:76-103 | with the last number's entry brought up to date on every turn (the correction under Findings), each call speaks the next number of the game by its rules and appends it; without starting numbers (where the map lookup panics) it gives None |
| Memory.NextFromState | 2020/src/bin/day15.rs:81-89 | in a state the game keeps, the next number is the starting number while they last, 0 after a new number, and otherwise the gap to the last number's entry, which is an earlier turn than the last |
| Memory.NextKeepsInvariant | 2020/src/bin/day15.rs:86-100 | bringing the last number's entry up to date and then recording the next number when it is new leaves map, flag and last number matching the history one turn longer |
| Memory.Game.NextNumber | 2020/src/bin/day15.rs:81-89 | the number read from the state is the next number by the rules |
| Memory.Game.Speak | 2020/src/bin/day15.rs:88-100 | speaking the rules' next number appends it to the history, advances the turn and keeps the state matching the history |
| Memory.StaleRun | 2020/src/bin/day15.rs:81-100 | from 1, 1, 1 the game as written says 1, 1, 1, 2 |
| Memory.RulesRepeat | 2020/src/bin/day15.rs:81-89 | by the rules, 1, 1, 1 is followed by 1 |
| Memory.Nth | 2020/src/bin/day15.rs:44 | `nth(n)` is the (n+1)th number spoken |
| Memory.Part1 | 2020/src/bin/day15.rs:41-45 | the 2020th number spoken; None without starting numbers |
| Memory.Part2 | 2020/src/bin/day15.rs:47-51 | the 30000000th number spoken; None without starting numbers |
| Lanternfish.Day | 2021/src/bin/day06.rs:42-44 | one day of the nine-counter buffer is again a nine-counter buffer |
| Lanternfish.Days | 2021/src/bin/day06.rs:41-49 | any number of days keeps the nine counters |
| Lanternfish.DayTotal | 2021/src/bin/day06.rs:42-44 | one day adds the count of fish at timer 0 to the population |
| Lanternfish.Aged | 2021/src/bin/day06.rs:42-44 | ageing the fish one by one keeps their number |
| Lanternfish.Tally | 2021/src/bin/day06.rs:32-35 | counting fish by timer gives nine counters |
| Lanternfish.AgedCount | 2021/src/bin/day06.rs:42-44 | after ageing, timer 6 holds the fish that were at 7 or 0, timer 8 none, and every other timer the fish one above |
| Lanternfish.SpawnCount | 2021/src/bin/day06.rs:43 | the newborns all have timer 8 |
| Lanternfish.FishDayTally | 2021/src/bin/day06.rs:41-44 | rotating the counters is the same as ageing every fish and adding the newborns, then counting |
| Lanternfish.AgedTimers | 2021/src/bin/day06.rs:42-44 | ageing keeps every timer below 9 |
| Lanternfish.FishDaysTally | 2021/src/bin/day06.rs:41-49 | n days of counters are the counts of n days of individual fish |
| Lanternfish.TallyPopulation | 2021/src/bin/day06.rs:32-35 | the counters add up to the number of fish |
| Lanternfish.Population | 2021/src/bin/day06.rs:47-51 | the summed counters after n days are the number of fish after n days |
| Lanternfish.InitCounts | 2021/src/bin/day06.rs:32-35 | the counting loop gives the tally, and fails (an index past 8 panics) exactly when a timer is 9 or more |
| Lanternfish.Solve | 2021/src/bin/day06.rs:31-54 | the day loop gives the population sums after 80 and after 256 days, and fails exactly when a timer is 9 or more |
| Lanternfish.SolveCountsFish | 2021/src/bin/day06.rs:31-54 | both answers are the numbers of fish after 80 and 256 days |
| Bingo.FirstIndex | 2021/src/bin/day04.rs:76 | the first position holding the number |
| Bingo.MarkedBoard | 2021/src/bin/day04.rs:75-79 | marking keeps the board's size |
| Bingo.MarkFirst | 2021/src/bin/day04.rs:75-79 | marking overwrites the first cell equal to the number with 0xFF and nothing else; an absent number leaves the board unchanged |
| Bingo.UnmarkedSum | 2021/src/bin/day04.rs:93-99 | the sum of the unmarked cells is at most 254 per cell (so a board of 25 stays far inside `u32`), 0 on a fully marked board, and positive when some unmarked cell is non-zero |
| Bingo.MarkUnmarkedSum | 2021/src/bin/day04.rs:75-99 | marking a present number other than 0xFF lowers the unmarked sum by that number; otherwise the sum stays |
| Bingo.StepByAt | 2021/src/bin/day04.rs:88 | `step_by(n)` yields element n·k for every k with n·k inside the board |
| Bingo.IsWinning | 2021/src/bin/day04.rs:81-91 | a board wins exactly when some row or some column is all marked |
| Bingo.WinningMeans | 2021/src/bin/day04.rs:81-91 | the chunk test and the skip-and-step test are the row and column tests |
| Bingo.RowsAt | 2021/src/bin/day04.rs:82-85 | the k-th chunk of five is all 0xFF exactly when row k is marked |
| Bingo.ColumnsAt | 2021/src/bin/day04.rs:87-88 | skipping i and stepping by 5 is all 0xFF exactly when column i is marked |
| Bingo.MarkKeepsWinning | 2021/src/bin/day04.rs:75-91 | a winning board stays winning whatever is marked next |
| Bingo.ParseBoard | 2021/src/bin/day04.rs:105-119 | a board parses exactly when every whitespace-separated word is a `u8` and there are exactly 25 of them, in order |
| Bingo.Board.constructor | 2021/src/bin/day04.rs:69-72 | a fresh array of the 25 numbers |
| Bingo.Board.Mark | 2021/src/bin/day04.rs:75-79 | the search loop marks the board in place as `MarkedBoard` says |
| CamelCards.CardValue | 2023/src/bin/day07.rs:101-109 | every card letter has a value from 2 to 14 |
| CamelCards.CardValueInjective | 2023/src/bin/day07.rs:101-109 | different card letters have different values |
| CamelCards.ParseHand | 2023/src/bin/day07.rs:100-112 | a hand parses exactly when it is five card letters, and each card is its letter's value |
| CamelCards.Insert | 2023/src/bin/day07.rs:54 | inserting adds the one element, keeping all the others |
| CamelCards.InsertSorted | 2023/src/bin/day07.rs:54 | inserting into a sorted sequence keeps it sorted |
| CamelCards.Sort | 2023/src/bin/day07.rs:54-73 | `sort` gives a sorted permutation of the cards |
| CamelCards.SortedUnique | 2023/src/bin/day07.rs:54-73 | two sorted permutations of the same cards are equal |
| CamelCards.RunLengths | 2023/src/bin/day07.rs:56-65 | a non-empty hand has between one run and one run per card |
| CamelCards.RunLengthsSum | 2023/src/bin/day07.rs:56-65 | the runs add up to the number of cards |
| CamelCards.RunLengthsSame | 2023/src/bin/day07.rs:56-65 | equal cards make one run as long as the hand |
| CamelCards.RunLengthsIncreasing | 2023/src/bin/day07.rs:56-65 | all-different sorted cards make runs of length one |
| CamelCards.Pad | 2023/src/bin/day07.rs:56-75 | the runs written into the fixed counter array, zero after them |
| CamelCards.TopTwo | 2023/src/bin/day07.rs:67-93 | sorting the counters in reverse and taking the first two gives the largest and the second largest counters |
| CamelCards.ClassifyCounters | 2023/src/bin/day07.rs:67-68 | sorting the counters and classifying the two largest, jokers added to the first, gives the kind of the runs |
| CamelCards.TopPairValues | 2023/src/bin/day07.rs:67-68 | whichever positions are chosen, the two largest values are the same |
| CamelCards.Classify | 2023/src/bin/day07.rs:32-50 | `classify_kind` gives a kind from 0 to 6 only for a pair of runs five cards can make (the second at most the first, together at most five), and an empty second run only for five of a kind |
| CamelCards.ClassifyTotal | 2023/src/bin/day07.rs:32-50 | `classify_kind` never reaches `unreachable!` for the runs of five cards, jokers added to the longest run, and gives a kind up to 6 |
| CamelCards.Runs | 2023/src/bin/day07.rs:56-65 | five counters for five cards |
| CamelCards.WithoutJokers | 2023/src/bin/day07.rs:79-83 | skipping the jokers removes exactly the jokers |
| CamelCards.JokerRuns | 2023/src/bin/day07.rs:75-90 | six counters, the first never used |
| CamelCards.TopTwoFits | 2023/src/bin/day07.rs:67-68 | the second largest is at most the largest, together they fit in the total, and a lone run holds all the cards |
| CamelCards.KindOf | 2023/src/bin/day07.rs:52-69 | every hand of five cards has a kind from 0 to 6: `kind` never reaches the unreachable arm |
| CamelCards.JokerKindOf | 2023/src/bin/day07.rs:71-94 | every hand of five cards has a joker kind from 0 to 6: `joker_kind` never reaches the unreachable arm |
| CamelCards.KindOrderFree | 2023/src/bin/day07.rs:52-94 | the kind and the joker kind depend only on which cards the hand holds, not their order |
| CamelCards.FiveOfAKind | 2023/src/bin/day07.rs:35 | five equal cards are five of a kind |
| CamelCards.AllDifferent | 2023/src/bin/day07.rs:47 | five different cards are a high card |
| CamelCards.NoJokerAgrees | 2023/src/bin/day07.rs:52-94 | without jokers the joker kind is the plain kind |
| CamelCards.RunStep | 2023/src/bin/day07.rs:59-65 | the next card extends the last run when equal to the previous card, else opens a new run |
| CamelCards.Kind | 2023/src/bin/day07.rs:52-69 | the run-counting loop over the sorted cards gives the hand's kind, always one of 0 to 6 |
| CamelCards.JokerCounters | 2023/src/bin/day07.rs:75-90 | the loop counts the jokers and writes the runs of the other cards into counters 1 onwards |
| CamelCards.JokerKind | 2023/src/bin/day07.rs:71-94 | the joker loop gives the hand's joker kind, always one of 0 to 6 |
| Homework.DigitChar | 2020/src/bin/day18.rs:70-81 | a digit is written as the character that many places after `0` |
| Homework.RenderTerm | 2020/src/bin/day18.rs:76-113 | an operand, a digit or a bracketed expression, is never written empty |
| Homework.RenderItems | 2020/src/bin/day18.rs:73-101 | an operation followed by its operand is never written empty |
| Homework.Step | 2020/src/bin/day18.rs:85-98 | an operation on a non-negative running value and stored sums with a non-negative operand keeps them all non-negative |
| Homework.Finish | 2020/src/bin/day18.rs:118-126 | the final value from non-negative state is not negative |
| Homework.FoldItems | 2020/src/bin/day18.rs:67-116 | running the operations from a non-negative state keeps it non-negative |
| Homework.Value | 2020/src/bin/day18.rs:62-127 | the value `eval` computes for an expression of digits is never negative |
| Homework.FoldSnoc | 2020/src/bin/day18.rs:67-116 | one more operation at the end of an expression is one more step of the running value |
| Homework.LeftToRight | 2020/src/bin/day18.rs:85-97 | without precedence, the value of an expression with one more operation is the old value combined with the new operand, so evaluation goes strictly left to right |
| Homework.DigitOf | 2020/src/bin/day18.rs:70-81 | reading a digit character and writing it back gives the character |
| Homework.ReadDone | 2020/src/bin/day18.rs:103-126 | when `eval` meets `)` or the end of the line it has read the whole expression, and its final value is the expression's value |
| Homework.ReadOperand | 2020/src/bin/day18.rs:76-83 | at a written digit or bracketed expression, reading the operand gives its value and moves past it |
| Homework.Operation | 2020/src/bin/day18.rs:73-101 | at a written operation and operand, the step gives the new running value and stored sums and moves past them |
| Homework.Eval | 2020/src/bin/day18.rs:62-127 | on a written expression, `eval` gives its value (left to right, or with `+` first when `plus_higher`) and moves past it and the closing bracket |
| Homework.ReadLevel | 2020/src/bin/day18.rs:67-116 | the token loop over a written expression ends in a state whose final value is the expression's value |
| Homework.ReadToken | 2020/src/bin/day18.rs:67-112 | one token of the loop always moves forward when it succeeds; a digit or `(` replaces only the running value and keeps the stored sums; inside a written expression it succeeds and reads the next operand or operation and operand |
| Homework.IntendedFoldSnoc | 2020/src/bin/day18.rs:85-98 | with addition binding tighter, one more operation at the end is one more step |
| Homework.IntendedMulLast | 2020/src/bin/day18.rs:87-123 | with addition binding tighter, a final `* t` multiplies the whole value by t |
| Homework.IntendedAddLast | 2020/src/bin/day18.rs:86-123 | with addition binding tighter, a final `+ t` adds t to the last sum only, before it is multiplied by the others |
| Homework.ProductPositive | 2020/src/bin/day18.rs:123 | a product of positive numbers is at least 1 |
| Homework.AsWrittenMatchesIntended | 2020/src/bin/day18.rs:88-123 | on an expression without a zero digit, `eval` with `plus_higher` gives the intended value, which is at least 1 |
| Homework.TermMatches | 2020/src/bin/day18.rs:76-83 | the same agreement for an operand |
| Homework.FoldMatches | 2020/src/bin/day18.rs:67-116 | the same agreement for a run of operations from a positive state |
| Homework.ZeroDroppedBeforeTimes | 2020/src/bin/day18.rs:88-94 | `0*5` evaluates to 5 with `plus_higher`, where the intended value is 0 |
| MonsterMessages.Match | 2020/src/bin/day19.rs:138-161 | a rule that returns leaves the cursor at or after where it started, never past the message |
| MonsterMessages.MatchAll | 2020/src/bin/day19.rs:156-159 | a sequence that returns leaves the cursor at or after where it started, never past the message |
| MonsterMessages.MatchSound | 2020/src/bin/day19.rs:138-161 | a successful match consumes a piece of the message that the rule derives |
| MonsterMessages.MatchAllSound | 2020/src/bin/day19.rs:156-159 | a successful sequence consumes a piece the rules derive one after the other |
| MonsterMessages.MatchFuel | 2020/src/bin/day19.rs:138-161 | a match that finishes within some nesting depth gives the same outcome with any larger depth |
| MonsterMessages.MatchAllFuel | 2020/src/bin/day19.rs:156-159 | the same for sequences |
| MonsterMessages.WholeMatch | 2020/src/bin/day19.rs:61-74 | without rule 0 the lookup fails; a message part 1 accepts is derived by rule 0 |
| MonsterMessages.CommitsToFirst | 2020/src/bin/day19.rs:144-155 | part 1 rejects `abb` under rules `0: 1 2`, `1: 3 \| 3 4`, `2: 4`, `3: "a"`, `4: "b"`, since the alternation keeps its first success |
| MonsterMessages.DerivesLonger | 2020/src/bin/day19.rs:114-119 | yet rule 0 of those rules derives `abb` |
| MonsterMessages.DerivesFirstRule | 2020/src/bin/day19.rs:114-119 | rule 1 of those rules derives `ab` |
| MonsterMessages.Repeat | 2020/src/bin/day19.rs:84-107 | the repeat loop ends with the cursor at or after where it started |
| MonsterMessages.RepeatSound | 2020/src/bin/day19.rs:84-107 | the loop consumes a piece made of as many matches of the rule as it counts, and stops where the next match fails |
| MonsterMessages.LoopMatch | 2020/src/bin/day19.rs:81-110 | without rule 42 the lookup fails; a message part 2 accepts is some 42-matches followed by fewer but at least one 31-matches, covering the message |
| MonsterMessages.Cursor.constructor | 2020/src/bin/day19.rs:67-82 | a cursor over the message at a position |
| MonsterMessages.Cursor.Next | 2020/src/bin/day19.rs:140-143 | the next character and one step on, or None at the end without moving |
| MonsterMessages.Cursor.Clone | 2020/src/bin/day19.rs:145-147 | a new cursor at the same place |
| MonsterMessages.Matches | 2020/src/bin/day19.rs:138-161 | `matches` on a cursor gives `Match`'s verdict and moves the cursor to its end |
| MonsterMessages.AcceptsWhole | 2020/src/bin/day19.rs:66-72 | the part 1 filter: rule 0 matches and the cursor is at the end |
| MonsterMessages.CountMatches | 2020/src/bin/day19.rs:84-95 | the loop counts the matches of a rule and restores the cursor after the first failure |
| MonsterMessages.AcceptsLooped | 2020/src/bin/day19.rs:81-110 | the part 2 filter is `LoopMatch` |
| Passports.NumberOrZero | 2020/src/bin/day04.rs:62-69 | a number field is the value parsed as a `u32` when it parses, and 0 when it does not; never above `u32::MAX` |
| Passports.Assign | 2020/src/bin/day04.rs:52-72 | one pair is accepted exactly when it is long enough for both `split_at`s and its key is one of the eight known keys |
| Passports.ParsePassport | 2020/src/bin/day04.rs:51-76 | the loop over the whitespace-separated pairs gives `FromStr` |
| Passports.FromStr | 2020/src/bin/day04.rs:51-76 | a passport parses exactly when every pair is long enough and has a known key; then each field holds the value of the last pair with its key, a number field parsed or 0, and otherwise its default |
| Passports.AssignAllFields | 2020/src/bin/day04.rs:60-73 | after the loop every field holds the value of the last pair with its key, or keeps its default |
| Passports.AssignAllDefined | 2020/src/bin/day04.rs:53-71 | parsing fails exactly when some pair is too short or has an unknown key |
| Passports.IsValid | 2020/src/bin/day04.rs:80-88 | the default passport, with no field given, is never valid |
| Passports.CheckHeight | 2020/src/bin/day04.rs:108-131 | without `in` or `cm` the height fails; an accepted height has `in` or `cm` after an `i32` in that unit's range; a panic happens only where the text before a unit is not an `i32` |
| Passports.CheckHairColour | 2020/src/bin/day04.rs:133-147 | every `#` and six of 0-9a-f passes; anything that passes is seven characters starting with `#`, followed by six hex digits of either case or by a `+` |
| Passports.CheckEyeColour | 2020/src/bin/day04.rs:149-159 | passes exactly the seven codes: the length test adds nothing |
| Passports.CheckPassportId | 2020/src/bin/day04.rs:161-167 | every nine-digit id passes; anything else that passes is nine characters starting with `+` |
| Passports.IsValidStrict | 2020/src/bin/day04.rs:90-106 | the strict check panics exactly when the height check does |
| Passports.StrictImpliesValid | 2020/src/bin/day04.rs:80-106 | a passport the strict check accepts also passes `is_valid`, so part 2 never counts more than part 1 |
| Passports.SignedPassportId | 2020/src/bin/day04.rs:161-167 | `+12345678` passes the passport id check as written but is not nine digits |
| Passports.DecimalLiteral | 2020/src/bin/day04.rs:166 | `12345678` parses in base 10 as 12345678 |
| Passports.SignedHairColour | 2020/src/bin/day04.rs:133-147 | `#+abcde` passes the hair colour check as written but is not six hex digits |
| Passports.TrailingHeight | 2020/src/bin/day04.rs:116-121 | `60inx` passes the height check as written but does not end in the unit |
| Passports.SignedHeight | 2020/src/bin/day04.rs:116-121 | `+60in` passes the height check as written but is not digits and a unit |
| Passports.UnitThenInPanics | 2020/src/bin/day04.rs:116-118 | `190cmin` panics: the text before its first `in` is not an `i32` |
| Passports.Power | 2020/src/bin/day04.rs:144-166 | a power of a positive base is positive |
| Passports.DigitsParse | 2020/src/bin/day04.rs:144-166 | a non-empty string of digits parses, to less than the radix to the power of its length |
| Passports.PassportIdAgrees | 2020/src/bin/day04.rs:161-167 | nine decimal digits parse as a `u32`, and nine characters without a leading `+` that parse are nine digits |
| Passports.ParsedDigits | 2020/src/bin/day04.rs:144-166 | a string without a sign that parses is all digits |
| Passports.HairColourFacts | 2020/src/bin/day04.rs:133-147 | six hex digits parse in base 16 as a `u32`; six characters without a leading `+` that parse are hex digits |
| Passports.HeightAgrees | 2020/src/bin/day04.rs:108-131 | a number followed by exactly `in` in 59..=76 or `cm` in 150..=193 passes the rule as written |
| Passports.IntendedIsStricter | 2020/src/bin/day04.rs:90-106 | a passport the intended checks accept is accepted by `is_valid_strict` as written |
| Fertilizer.MapBackward | 2023/src/bin/day05.rs:29-33 | a mapping takes a number back exactly when it lies in `[dst, dst + len)`, to the number at the same offset in `[src, src + len)` |
| Fertilizer.BackwardInvertsForward | 2023/src/bin/day05.rs:29-33 | mapping back gives x exactly when mapping x forward gives the number |
| Fertilizer.FindBackward | 2023/src/bin/day05.rs:102-103 | `find_map` gives the result of the first mapping that applies, and None exactly when none applies |
| Fertilizer.StepBack | 2023/src/bin/day05.rs:102-104 | the number that the first mapping covering the input takes it back to; the input itself when no mapping covers it |
| Fertilizer.StepBackMeaning | 2023/src/bin/day05.rs:102-104 | a map step back gives a number some mapping sends forward to the input, or the input itself when no mapping covers it |
| Fertilizer.Reverse | 2023/src/bin/day05.rs:101 | `rev` keeps the number of maps |
| Fertilizer.FoldBack | 2023/src/bin/day05.rs:101-105 | the fold over one more map takes the fold over the others back through that map |
| Fertilizer.FoldBackAppend | 2023/src/bin/day05.rs:101-105 | folding over two runs of maps is folding over the first and then the second |
| Fertilizer.LocationToSeed | 2023/src/bin/day05.rs:100-106 | with no maps a location is its own seed; otherwise `location_to_seed` takes it back through the last map first, then through the others |
| Fertilizer.ChainsCompose | 2023/src/bin/day05.rs:100-106 | going back through two chains of maps is going back through the later chain, then the earlier |
| Fertilizer.InSeedRange | 2023/src/bin/day05.rs:108-113 | with an even number of seed values the range test never panics |
| Fertilizer.InSeedRangeMeaning | 2023/src/bin/day05.rs:108-113 | a seed is in range exactly when it lies in some pair's `[start, start + len)` |
| Mirage.Diffs | 2023/src/bin/day09.rs:32 | the windows of two give one fewer value, each the later minus the earlier; an empty row gives none |
| Mirage.Pyramid | 2023/src/bin/day09.rs:29-35 | the rows `yeet` builds: at least one, starting with the history |
| Mirage.PyramidShape | 2023/src/bin/day09.rs:29-35 | the pyramid starts with the history, ends with an all-zero row, and each row above it is non-empty, not all zero, and followed by its differences |
| Mirage.BuildPyramid | 2023/src/bin/day09.rs:29-35 | the difference loop builds the pyramid of the history |
| Mirage.Accumulate | 2023/src/bin/day09.rs:43-47 | an accumulator step panics (None) exactly on an empty row, where `last`/`first` is unwrapped |
| Mirage.FoldUp | 2023/src/bin/day09.rs:37 | the fold panics (None) exactly when some row is empty |
| Mirage.FoldUpForward | 2023/src/bin/day09.rs:37-43 | folding the reversed pyramid with the part 1 accumulator gives the next value of the history |
| Mirage.FoldUpBackward | 2023/src/bin/day09.rs:37-47 | folding the reversed pyramid with the part 2 accumulator gives the value before the history |
| Mirage.NextValueContinues | 2023/src/bin/day09.rs:25-44 | the extrapolated next value extends every row of differences by its own next value, so the history continues the same pattern |
| Mirage.PrevValueContinues | 2023/src/bin/day09.rs:25-48 | the extrapolated earlier value extends every row of differences at its front in the same way |
| Mirage.DiffsAppend | 2023/src/bin/day09.rs:32 | one more value at the end adds one more difference at the end |
| Mirage.Yeet | 2023/src/bin/day09.rs:25-40 | the loop over the dataset sums every history's extrapolation, failing when one does |
| Mirage.YeetExtrapolates | 2023/src/bin/day09.rs:25-48 | when the sum exists, every history has an extrapolated value |
| Mirage.DiffsOfProgression | 2023/src/bin/day09.rs:32 | the differences of an arithmetic progression are its constant step |
| Mirage.ConstantRow | 2023/src/bin/day09.rs:42-48 | a constant history of length at least two extrapolates to the same constant both ways |
| Mirage.Progression | 2023/src/bin/day09.rs:42-48 | an arithmetic progression of at least three values extrapolates to the next and the previous terms |
| Mirage.ShortRowPanics | 2023/src/bin/day09.rs:30-47 | a history of one non-zero value leads to an empty row of differences, and both parts panic on it |
| Trebuchet.CharDigit | 2023/src/bin/day01.rs:18-19 | `to_digit(10)` gives a value exactly for the characters `0` to `9`, namely the digit's value |
| Trebuchet.FirstSome | 2023/src/bin/day01.rs:18-37 | the first value present, None exactly when none is present |
| Trebuchet.LastSome | 2023/src/bin/day01.rs:19-38 | the last value present, None exactly when none is present |
| Trebuchet.Value | 2023/src/bin/day01.rs:17-20 | a value exactly when some position reads a digit; with digits below 10 the value is below 100 |
| Trebuchet.CharReads | 2023/src/bin/day01.rs:18-19 | each character read as a digit, in order |
| Trebuchet.LineValue | 2023/src/bin/day01.rs:17-21 | a line has a calibration value exactly when it holds a digit (otherwise `unwrap` panics), and the value is below 100 |
| Trebuchet.SingleDigit | 2023/src/bin/day01.rs:17-21 | a line with one digit d has value 11·d |
| Trebuchet.Total | 2023/src/bin/day01.rs:15-21 | summing the line values gives a total exactly when every line has a value; with values below 100 the total is at most 99 per line |
| Trebuchet.Part1 | 2023/src/bin/day01.rs:15-23 | Some exactly when every line holds a digit (otherwise `unwrap` panics); the sum is at most 99 per line |
| Trebuchet.Word | 2023/src/bin/day01.rs:47-57 | every spelled number is at least three letters |
| Trebuchet.PrefixFrom | 2023/src/bin/day01.rs:58-60 | the table search from entry n finds the first word the text starts with, or reports that it starts with none |
| Trebuchet.NumberPrefix | 2023/src/bin/day01.rs:45-61 | a result is a number from 1 to 9 whose word starts the text; None means no number word starts it |
| Trebuchet.WordsDiffer | 2023/src/bin/day01.rs:47-57 | no text starts with two different number words |
| Trebuchet.NumberPrefixMeaning | 2023/src/bin/day01.rs:45-61 | `get_number_prefix` gives n exactly when the text starts with n's word |
| Trebuchet.ByteReads | 2023/src/bin/day01.rs:32-36 | each position read as an ASCII digit or a spelled number starting there |
| Trebuchet.DigitAt | 2023/src/bin/day01.rs:32-36 | what is read at a position is a digit below 10 |
| Trebuchet.SpelledValue | 2023/src/bin/day01.rs:27-39 | a line has a value exactly when some position reads a digit or a number word, and the value is below 100 |
| Trebuchet.FirstAndLast | 2023/src/bin/day01.rs:29-38 | the loop keeping `first = first.or(num)` and `last = num.or(last)` ends with the first and the last number read on the line |
| Trebuchet.CalibrationValue | 2023/src/bin/day01.rs:28-40 | a line's part 2 value is `first * 10 + last` of the loop, None when nothing was read, and equals the line value defined on the reads |
| Trebuchet.Part2 | 2023/src/bin/day01.rs:25-42 | Some exactly when every line reads some digit, spelled or not (otherwise `unwrap` panics); the sum is at most 99 per line |
| Trebuchet.Overlapping | 2023/src/bin/day01.rs:31-39 | `eightwo` reads as 82: overlapping words both count |
| Trebuchet.AsciiBytes | 2023/src/bin/day01.rs:28 | an ASCII line's bytes are its characters' codes |
| Trebuchet.UnspelledAgrees | 2023/src/bin/day01.rs:15-43 | on a line with no spelled numbers part 2 reads the same value as part 1 |
| HistorianLists.ParseLine | 2024/src/day01.rs:18-20 | a line parses exactly when it splits at three spaces and both halves are `u32`s, each below 2^32 |
| HistorianLists.LinePairs | 2024/src/day01.rs:17-23 | one parse result per line, in the order of the lines |
| HistorianLists.Collect | 2024/src/day01.rs:14-26 | pushing the pairs gives lists exactly when every pair is present; both lists have one entry per pair, in order |
| HistorianLists.ParseLines | 2024/src/day01.rs:13-27 | the lines parse exactly when every line does; both lists have one entry per line, the pairs in order |
| HistorianLists.FromStr | 2024/src/day01.rs:13-27 | the loop pushing each line's pair onto the two lists gives `ParseLines` of `lines()`, which drops a carriage return only before a line feed |
| HistorianLists.FinalCarriageReturnFails | 2024/src/day01.rs:17-23 | a last line `3   4\r` with no line feed keeps its carriage return, so `4\r` is not a `u32` and the input fails |
| HistorianLists.NoLaterRecovery | 2024/src/day01.rs:18-20 | one bad line makes the whole input fail |
| HistorianLists.Distance | 2024/src/day01.rs:39 | `abs_diff` is zero exactly for equal values and bridges the gap between them |
| HistorianLists.DistanceSum | 2024/src/day01.rs:37-40 | for lists of equal length the summed `abs_diff`s are zero exactly when the lists are equal |
| HistorianLists.NeighboursSorted | 2024/src/day01.rs:34-35 | sorted neighbour by neighbour means sorted |
| HistorianLists.Insert | 2024/src/day01.rs:34-35 | inserting into a sorted list keeps it sorted and adds exactly the one value |
| HistorianLists.Sort | 2024/src/day01.rs:34-35 | `sort` gives a sorted permutation |
| HistorianLists.SortedHeads | 2024/src/day01.rs:34-35 | two sorted permutations of the same values start alike |
| HistorianLists.SortedUnique | 2024/src/day01.rs:34-35 | two sorted permutations of the same values are equal |
| HistorianLists.Part1IgnoresOrder | 2024/src/day01.rs:30-41 | part 1 depends only on which values each list holds, not their order |
| HistorianLists.Part1 | 2024/src/day01.rs:30-41 | for lists of equal length the total distance is zero exactly when they hold the same values |
| HistorianLists.Part1FromSorted | 2024/src/day01.rs:30-41 | any sorted copies of the two lists give the total distance |
| HistorianLists.Part2 | 2024/src/day01.rs:43-54 | the counting loop and the summing loop give the similarity score: each left value times its count in the right list |
| HistorianLists.Similarity | 2024/src/day01.rs:49-53 | every left value times its count in the right list is part of the score |
| HistorianLists.SimilarityEmpty | 2024/src/day01.rs:49-53 | against an empty right list the score is 0 |
| HistorianLists.SimilaritySnoc | 2024/src/day01.rs:45-53 | one more right value y adds y times its count in the left list |
| HistorianLists.SimilaritySymmetric | 2024/src/day01.rs:43-54 | swapping the two lists gives the same score |
| HistorianLists.ExampleDistance | 2024/src/day01.rs:37-40 | the sorted example lists are 11 apart |
| HistorianLists.ExampleLeftSorted | 2024/src/day01.rs:34 | `1 2 3 3 3 4` is the left example list sorted |
| HistorianLists.ExampleRightSorted | 2024/src/day01.rs:35 | `3 3 3 4 5 9` is the right example list sorted |
| HistorianLists.ExamplePart1 | 2024/src/day01.rs:69-73 | part 1 of the example is 11 |
| HistorianLists.ExamplePart2 | 2024/src/day01.rs:75-79 | part 2 of the example is 31 |

## Left out

- Input and output: `main`, `get_input`/`parse_input` file loading (`include_str!`, `File::open`), `println!`/`dbg!` and the benchmarks. The model's operations take their input as parameters.
- IntCode.Computer.Run: bounded by a `fuel` count and returns `OutOfFuel` instead of looping for ever on a program that never halts. IntCode.RunResult is the same.
- IntCode.Apply: the Rust i64 add and multiply panic on overflow. The model returns no word (an `Overflow` error) instead.
- The 2019 day 2, 5 and 7 binaries are thin wrappers over the virtual machine. Days 5 and 7 call input/output queue operations that `2019/src/intcode.rs` does not define, so they are not part of this model.
- Handheld.Step: the accumulator and the instruction pointer are unbounded integers, so the i64 overflow of `acc` and `ip` (2020/src/bin/day08.rs:29-82) is not modelled. Handheld.Eval is the same.
- Syntax.IncompleteScore: the score is an unbounded integer, so u64 overflow is not modelled. Syntax.CorruptScore and Syntax.Solve are the same for their u32 and u64 totals (2021/src/bin/day10.rs:24-60).
- Orbits.Lcm: `a * b / gcd(a, b)` is computed on unbounded integers, so u64 overflow of the product (2023/src/bin/day08.rs:132-134) is not modelled.
- Lenses.Part1: the u32 sum of the hashes is unbounded. Lenses.Part2 is the same for the focusing power (2023/src/bin/day15.rs:54-55).
- Reports.Part1: the u32 count of safe rows is unbounded. Reports.Part2 is the same (2024/src/day02.rs:75, 110).
- Docking.Part1: the usize sum of the memory values is unbounded, so overflow is not modelled.
- BitOps.TestBit: models only the `u64` instance of `impl_bitops!`. The other eleven integer types it is instantiated for (2021/src/utils/bit_ops.rs:30) run the same three lines at other widths, with the shift limit at each type's bit width instead of 64. BitOps.WithBitSet, BitOps.WithBitCleared and the `Bits` methods are the same.
- BitOps.TestBit: requires `n < 64`, because `1 << n` overflows the shift in Rust for larger `n`. BitOps.WithBitSet, BitOps.WithBitCleared and the `Bits` methods require the same.
- Dish.Part1: requires at least one row, because the Rust code reads `inp[0]` for the width and panics on an empty grid. Dish.Platform.constructor requires the same.
- MonsterMessages.Match: bounded by a `fuel` count. A rule nesting deeper than the fuel gives `None`, where the Rust recursion has no bound.
- 2020 day 19: `Rule::from_str` (2020/src/bin/day19.rs:121-135) and the parse of the input file are not modelled. Rules are given as values.
- 2020 day 12: `Direction::from_str` and the splitting of input lines are not modelled.
- Navigation.Translated: coordinates are unbounded integers, so i64 overflow is not modelled. Navigation.Manhattan is the same.
- 2021 day 13: `solve`'s part 2 rendering of the dots to text is not modelled. The `from_str` parsers of the input, points and instructions are not modelled either; only `Axis::from_str` is.
- 2023 day 14: part 2's cycle detection (a HashMap of seen grids and a billion spin cycles) is not modelled, and neither is the `Display` impl. One spin cycle is modelled (Dish.Platform.Spin).
- Dish.Part1: the grid is made of `Tile` values (round rock, cube rock, space), not bytes, so the `unreachable!` arm for any other byte (2023/src/bin/day14.rs:38) is not modelled. Dish.Platform.RollLaneCell is the same for the arm at 2023/src/bin/day14.rs:146.
- Dish.Part1: the Rust result is truncated `as u32`. The model keeps the unbounded integer. Dish.NorthWeight is the same.
- Lanternfish.Solve: counts are unbounded integers, so u64 overflow is not modelled.
- 2021 day 4: `solve` (the game loop that marks boards and drops winners with `retain`) is not modelled. Its parts are: marking, winning and unmarked sums.
- 2023 day 7: the part 1/part 2 ranking (`sort_by_cached_key`, bids times rank) and `parse_input` are not modelled. The library sorts inside `kind`/`joker_kind` are modelled by their result, a sorted permutation.
- 2020 day 18: the part 1/part 2 sums over all lines and `get_input`'s whitespace stripping are not modelled. Expressions are given without spaces.
- Homework.Eval: values are unbounded integers, so usize overflow is not modelled.
- 2020 day 4: the part 1/part 2 counts over all passports and the splitting of the input into records are not modelled.
- 2023 day 5: the `from_str` parsers of mappings and the almanac are not modelled. Neither is the part 1/part 2 search over every location up to `u32::MAX`: it has 2^32 steps, and its parts (location to seed, seed ranges) are modelled.
- Fertilizer.MapBackward: `dst + len` and `inp - dst + src` are unbounded, so the u32 overflow of 2023/src/bin/day05.rs:30-32 is not modelled.
- Fertilizer.InSeedRange: `start + len` is unbounded, so the u32 overflow of 2023/src/bin/day05.rs:111 is not modelled.
- Mirage.Yeet: values are unbounded integers, so i64 overflow is not modelled. `parse_input` is not modelled.
- Trebuchet.Part1: the u32 sum is unbounded. Trebuchet.Part2 is the same.
- HistorianLists.Part2: the u32 product `num * count` (2024/src/day01.rs:52) and the u32 sum are unbounded, as is the part 1 sum, so their overflow is not modelled. The library sort is modelled by its result (a sorted permutation), and the BTreeMap of counts (2024/src/day01.rs:44) by a Dafny `map`.
- Packets.VersionSumExample1: hex decoding of the transmission (`hex::decode`) is not modelled. Each example is stated on the layout whose bits are those of its hex string, and the same holds for Packets.VersionSumExample2-4 and Packets.StructureExample1-3.
- Packets.Eval: sums and products are unbounded integers, so i64 overflow is not modelled. The Rust code reads bits with pointer arithmetic and the `nom` parser library. The model reads a sequence of bits with a cursor.
- Shuttle.Part1: the usize product `time_till_bus * min_bus` (2020/src/bin/day13.rs:52) is unbounded, so its overflow is not modelled.
- Shuttle.Part2: the offsets and bus numbers are unbounded integers, so the `as i64` casts of 2020/src/bin/day13.rs:66-67 (which wrap a usize above `i64::MAX`) are not modelled.
- Shuttle.Crt: the i64 arithmetic of `crt` and `egcd` is unbounded. Shuttle.Egcd is the same.
- Boarding.Part1: takes the seat ids already sorted (a `requires`), as `get_input` sorts them before part 1 runs.
- Vectors that Rust sorts in place (`Vec::sort`) are modelled on sequence values: the result is a sorted permutation of the input.
- Graph and heap searches (2021 days 12 and 15; 2023 days 10, 16 and 17; 2020 days 7, 17 and 21) and the memoised 2023 day 12 are not part of this model. They lean on hash maps and binary heaps.
- Unfinished or debug-only solvers (2020 days 20, 22 and 23; 2023 day 3; 2024 day 3) and the older duplicate `2024/src/day2.rs` are not part of this model.
- The remaining days (2021 days 1-3, 5, 7-9, 11 and 14; 2020 days 1-3, 6, 9, 10 and 16; 2023 days 2, 4, 6, 11 and 13; the 2019 day 1 binaries) are not part of this model. 2020 day 11 depends on an external grid crate.

## Findings

| source | as written | input that shows it | evidently intended | confidence | as-written member | corrected member |
|---|---|---|---|---|---|---|
| 2023/src/bin/day14.rs:100-108 | `tilt` sets `no_cols` to the number of rows (`len / row_width`) and `no_rows` to `row_width`. The lanes it rolls along are therefore wrong unless the grid is square. | A 2-row, 1-column grid `.` over `O`: a north tilt leaves the rock where it is. A 1-row, 2-column grid: the lane reaches index 2, past the tiles (an index panic). | Rocks roll all the way to the tilted edge on any rectangular grid. The puzzle input is square, which hides the swap. | not executed | Dish.Platform.TiltAsWritten, Dish.TallNorthTiltStalls, Dish.WideNorthTiltOverruns | Dish.Platform.Tilt, Dish.NorthTiltSettles, Dish.TiltIdempotent |
| 2020/src/bin/day15.rs:81-94 | The starting numbers enter `last_turns` through `or_insert`, which keeps the FIRST turn of a repeated number. The late update of the last number's turn runs only after the starting numbers. | Starting numbers 1, 1, 1: the program says 2 as the 4th number, but the rules give 1 (1 was last said one turn earlier). | Every number's entry holds the most recent turn it was said, including repeats among the starting numbers. | not executed | Memory.NextAsWritten, Memory.RepeatedStartGoesStale | Memory.Game.Next, Memory.NextFromTurns |
| 2020/src/bin/day18.rs:88-121 | With addition before multiplication, a pending partial value of 0 is the marker for "nothing pending", so a real 0 term is dropped before a `*`. | `0*5` with addition first evaluates to 5, not 0. | A product whose factor is 0 evaluates to 0. | not executed | Homework.Eval, Homework.ZeroDroppedBeforeTimes | Homework.IntendedValue, Homework.IntendedMulLast, Homework.IntendedAddLast |
| 2020/src/bin/day04.rs:161-167 | `pid` is checked for length 9 and by `from_str_radix(_, 10)`, which also accepts a leading `+`. | `+12345678` is a valid passport id. | A passport id is exactly nine decimal digits. | not executed | Passports.CheckPassportId, Passports.SignedPassportId | Passports.PassportIdIntended, Passports.PassportIdAgrees |
| 2020/src/bin/day04.rs:133-147 | `hcl` is checked as `#` plus six characters accepted by `from_str_radix(_, 16)`, which accepts a leading `+` and upper-case digits. | `#+abcde` is a valid hair colour. | A hair colour is `#` followed by exactly six of 0-9a-f. | not executed | Passports.CheckHairColour, Passports.SignedHairColour | Passports.HairColourIntended, Passports.HairColourFacts |
| 2020/src/bin/day04.rs:116-127 | `hgt` parses everything before the first `in` (or, when there is none, before the first `cm`) as an `i32`, and panics when that fails. Any text after the unit is ignored, a leading `+` is accepted, and `190cmin` panics. | `60inx` is a valid height. | A height is a number followed by exactly `cm` or `in`, and nothing more. | not executed | Passports.CheckHeight, Passports.TrailingHeight, Passports.SignedHeight, Passports.UnitThenInPanics | Passports.HeightIntended, Passports.HeightAgrees, Passports.IntendedIsStricter |
