# Verification of PTU

PTU packages a program run for reuse. A tracer built on strace redirects the file names and the execve calls of
the traced program into a package directory, and a reduced readelf inspects the binaries it meets. This project
models the parts of both where state, byte layout and control interact most, and proves what they keep.

The files follow the program.

- `Machine`, `ByteOrder`, `Leb128`: bits, bytes and the variable-length integers everything else reads.
- `Relocations`; `CallFrames` with `CallFrameProofs`, `FrameRules`, `FrameTables` and `FrameSections`; `LinePrograms`
  with `LineStatements`, `LineTables`, `LineSections` and `LineUnits`; `Abbrevs`, `CompUnits`, `UnwindIa64`,
  `HashTables`: the readers of `readelf-mini`.
- `ChildMemory`, `ExecveArgv`, `ShmatProtocol`, `Tries`, `Streaming`, `Paths` with `PathStacks`, `Sandbox`,
  `XattrEscape`: the tracer.

State that the source changes in place is a class, or an array that a method modifies. Each such method is proved
equal to a function of the state before it, and the theorems are about those functions. `dafny verify
dfyconfig.toml` checks the project.

Running off the end of a section, which the source mostly does not test, is an explicit outcome of the decoders.
Failed assertions, aborts and exits are outcomes too.

## What the proofs found

Where the source does not do what it is for, the code is kept as it is and the exact condition for success is
proved, so that every input outside it shows the failure; some inputs have a lemma of their own.

- Restoring a remembered call-frame state copies as many bytes of the column types as there are columns, but the
  types are shorts: the upper half is not restored (`CallFrameProofs.TypeNotBroughtBack`), and shows the kinds of the
  program without remembering (`FrameTables.PassMirrors`).
- An FDE starts without the rules its CIE gives to the registers it names (`FrameSections.MarkedExactly`), and without
  the CIE's CFA expression (`FrameSections.ChunkPrinted`); restoring a register for which the CIE has no column does
  nothing.
- A register number of 2^32 or more is granted a column by its low 32 bits and then stored by the whole number,
  outside the column arrays (`CallFrameProofs.OutsideStore`); below 2^32 no store of either pass is
  (`CallFrameProofs.BadExactlyWhenRefused`).
- The raw and the decoded line dump part on an extended opcode of length zero, on one whose length does not fit an
  int, and on a discriminator past the section. The decoded dump also looks up files and directories that a
  unit may lack: it stops at the first row of a unit without a file table (`LineUnits.SectionRoundTrip`), at a file
  added by DW_LNE_define_file (`LinePrograms.DefinedFileMissing`), and at a new file in the last directory, which it
  counts from 0 (`LineSections.SectionLockstep`).
- The decoded line dump prints no row for the end of a sequence (`LineStatements.ProgramDumped`).
- An interpreter line of more than 200 words overruns the array of their starts, and strings or pointers past the
  segment are not noticed (`ExecveArgv.CopyTokens`, `ExecveArgv.BuildScriptArgv`).
- The second path of linkat and renameat is written to rcx for a 64-bit target, where the kernel reads r10, and so is not
  redirected (`ShmatProtocol.RewrittenSeenExactly`).
- Outside exec mode the address of the shared segment survives the execve that unmaps it
  (`ShmatProtocol.AuditModeDangles`); a failing native shmat is not noticed (`ShmatProtocol.FailedInjection`).
- The test for a path already inside the root ignores component boundaries (`Sandbox.RedirectedInside`).
- A bucket of 0xffffffff can leave other buckets without their chain words (`HashTables.CoveredExactly`).
- A path with a newline is forgotten by the next session, and its last line is taken for a path that is already
  mirrored (`Streaming.NewlinePathForgotten`, `Streaming.NewlinePathShadows`). A path with a byte above 127 stops
  the tracer (`Streaming.SessionExactly`), and a log that cannot be appended to makes sessions mirror again
  (`Streaming.MirroredOnceExactly`).
- The trailing NUL of an attribute without a printable byte is printed (`XattrEscape.LastByte`).

## Model

| member | source | states |
|---|---|---|
| `ByteOrder.ByteGet` | readelf-mini/dwarf.c:73-166 | reading a field of 1, 2, 3, 4 or 8 bytes through the byte_get pointer gives the positional value of those bytes in either order; every other size aborts |
| `ByteOrder.ByteGetLittleEndian` | readelf-mini/dwarf.c:73-118 | the shifts and ors add up to the little-endian value of the field |
| `ByteOrder.ByteGetBigEndian` | readelf-mini/dwarf.c:121-166 | the same for the big-endian form |
| `ByteOrder.BytePutLittleEndian` | readelf-mini/readelf-mini.c:349-376 | the fall-through switch stores exactly the low bytes of the value, least significant first, and nothing outside the field; an unknown size stores nothing and aborts |
| `ByteOrder.BytePutBigEndian` | readelf-mini/readelf-mini.c:512-544 | the same for the most significant byte first, with the value shifted down between stores |
| `ByteOrder.PutThenGet` | readelf-mini/readelf-mini.c:349-544 | byte_get after byte_put of the same order and size returns the value modulo the field width |
| `Leb128.ReadLeb128` | readelf-mini/dwarf.c:239-265 | the loop returns the group value modulo 2^64, sign-extended when asked, and the exact length; running off the data is reported |
| `Leb128.ReadUleb128` | readelf-mini/readelf-mini.c:9069-9090 | the 32-bit reader returns the group value modulo 2^32 and the exact length |
| `Leb128.UnwDecodeUleb128` | readelf-mini/unwind-ia64.c:564-585 | the unwind reader, which tests before it shifts, agrees with read_leb128 |
| `Leb128.UnsignedRoundTrip` | readelf-mini/dwarf.c:239-265 | decoding the canonical encoding of any unsigned 64-bit value, anywhere in the data, gives the value and its length |
| `Leb128.SignedRoundTrip` | readelf-mini/dwarf.c:239-265 | the same for every signed 64-bit value |
| `Leb128.CanonicalIsShortest` | readelf-mini/dwarf.c:239-265 | no encoding of a value is shorter than the canonical one |
| `Leb128.ReadersAgree` | readelf-mini/readelf-mini.c:9069-9090 | all three readers agree on length and on the low 32 bits; up to five bytes nothing is lost |
| `Relocations.ApplyRelocation` | readelf-mini/readelf-mini.c:8378-8461 | one relocation patches the buffer in place by one field, or not at all when it does not apply; it reads past the symbol table exactly when an entry it does not skip has its index there |
| `Relocations.ApplyRelocations` | readelf-mini/readelf-mini.c:8320-8465 | the loop stays inside the symbol table exactly when every entry it does not skip does, and then patches the buffer as the list of entries does one by one |
| `Relocations.StoredIsFormula` | readelf-mini/readelf-mini.c:8425-8461 | the number stored is S + A, less the place for a pc-relative type, modulo 2^64, with A from the entry or from the section |
| `Relocations.FrameKept` | readelf-mini/readelf-mini.c:8378-8461 | bytes under no applied site never change, whatever the list |
| `Relocations.SitesHold` | readelf-mini/readelf-mini.c:8378-8461 | with pairwise separate sites every applied site holds the low bytes of S + A or S + A - P over the original contents |
| `Relocations.OrderIndependent` | readelf-mini/readelf-mini.c:8378-8461 | any permutation of a list with pairwise separate sites gives the same section |
| `Relocations.SlurpRelocs` | readelf-mini/readelf-mini.c:667-858 | the external table is read entry by entry, REL or RELA, 32 or 64 bits, in either byte order |
| `Relocations.EntryCount` | readelf-mini/readelf-mini.c:667-858 | as many entries are read as fit in the size |
| `Relocations.TableRoundTrip` | readelf-mini/readelf-mini.c:667-858 | reading the external form of any table gives the table back |
| `Relocations.InfoSplits` | readelf-mini/readelf-mini.c:862-888 | the symbol and the type packed into r_info come back, in both classes |
| `Relocations.EntrySeen` | readelf-mini/readelf-mini.c:8378-8451 | the loop takes each entry for what the ABI says of its type: the width of its field, pc-relative or not, skipped or not, with the symbol it was made for |
| `Relocations.SectionRelocated` | readelf-mini/readelf-mini.c:8297-8465 | from the bytes of a table of entries made of symbols and types: with no two used fields overlapping, every used field holds the low bytes of S + A, or S + A - P for R_386_PC32, R_X86_64_PC32 and R_X86_64_PC64, where S is the value of the symbol named |
| `Relocations.RestUnchanged` | readelf-mini/readelf-mini.c:8297-8465 | and every byte outside the used fields is unchanged, overlapping or not |
| `CallFrames.NeedSpace` | readelf-mini/dwarf.c:3695-3718 | frame_need_space refuses exactly the registers past both the columns and the named registers, keeps every existing column and never grows past the named registers |
| `CallFrames.FrameChunk.FrameNeedSpace` | readelf-mini/dwarf.c:3695-3718 | the arrays are regrown in place to what NeedSpace says |
| `CallFrames.DecodesAgree` | readelf-mini/dwarf.c:4140-4660 | where the second pass decodes an instruction the first decoded the same opcode, register and next offset, although the two have separate operand tables |
| `CallFrames.FrameChunk.SizeColumns` | readelf-mini/dwarf.c:4140-4256 | the first pass computes FirstPass on the chunk: its columns, a store by an untruncated register number outside the arrays, or an operand past the section |
| `CallFrames.FrameChunk.Interpret` | readelf-mini/dwarf.c:4275-4655 | one instruction of the second pass changes columns, CFA rule, location, rows, remembered list and max_regs as SecondStep says, or stores outside the arrays |
| `CallFrames.FrameChunk.StoreRule` | readelf-mini/dwarf.c:4291-4652 | the stores of a register instruction, case by case, are those that Written names |
| `CallFrames.FrameChunk.StoreCfa` | readelf-mini/dwarf.c:4489-4615 | the stores of the CFA instructions are those that NewCfa names |
| `CallFrames.FrameChunk.FillColumns` | readelf-mini/dwarf.c:4262-4660 | the second pass computes SecondPass on the chunk, rows, outside stores and cut-off operands included |
| `CallFrames.FrameChunk.CopyBack` | readelf-mini/dwarf.c:4472-4487 | restore_state copies offsets as ints and types as bytes |
| `CallFrameProofs.SecondIsPrefix` | readelf-mini/dwarf.c:4140-4660 | the second pass visits a prefix of the offsets the first pass visited |
| `CallFrameProofs.SecondIsWhole` | readelf-mini/dwarf.c:4140-4660 | it visits all of them exactly when no opcode before the last is unknown to it |
| `CallFrameProofs.UnknownExactly` | readelf-mini/dwarf.c:4652-4660 | the opcodes at which the second pass jumps to the end of the block, by number; at any other an operand that is cut off runs it off the section |
| `CallFrameProofs.FirstPassExactly` | readelf-mini/dwarf.c:4140-4256 | how the first pass ends: at a store outside its arrays exactly when a granted register of the chunk is 2^32 or more, else off the section exactly when an operand is cut off, else done with a column for every granted register |
| `CallFrameProofs.OutsideStore` | readelf-mini/dwarf.c:4193-4197 | a section that holds DW_CFA_undefined of register 2^32 + r, for any register r with a name, makes the first pass store outside its arrays |
| `CallFrameProofs.StepWithin` | readelf-mini/dwarf.c:4262-4660 | an instruction of the second pass stores inside exactly when it is not a signed form granted a register of 2^32 or more; the columns stay within the nameable registers |
| `CallFrameProofs.VerdictExactly` | readelf-mini/dwarf.c:4262-4660 | both passes judge a register alike when it is refused or below 2^32, in every form of instruction |
| `CallFrameProofs.ReportsAgree` | readelf-mini/dwarf.c:4140-4660 | over a whole chunk the passes report the same registers at the same offsets with one verdict, and the second pass stores inside, when the first did; it runs off the section exactly when an operand it looks at is cut off |
| `CallFrameProofs.BadExactlyWhenRefused` | readelf-mini/dwarf.c:4140-4660 | the exact ends of both passes over a chunk; and if the first is done, a register is reported bad in the second exactly when frame_need_space refused it, or a restore finds no such column in the CIE |
| `CallFrameProofs.SectionVerdicts` | readelf-mini/dwarf.c:3876-4660 | at every chunk reachable in a section, with the bounds it needs proved along the way: both passes get through exactly when granted registers are below 2^32 and no operand is cut off, and their verdicts agree |
| `CallFrameProofs.RowsStayInside` | readelf-mini/dwarf.c:3799-3860 | max_regs never passes the chunk columns, so the header loop of a row stays inside its array |
| `CallFrameProofs.ReachableIsOk` | readelf-mini/dwarf.c:3876-4660 | every chunk keeps the bounds of the section for the chunks after it |
| `CallFrameProofs.NestedRun` | readelf-mini/dwarf.c:4456-4487 | a properly nested run stores inside exactly when each of its instructions does; it returns the remembered list it was given and only adds columns |
| `CallFrameProofs.RestoreBringsBack` | readelf-mini/dwarf.c:4456-4487 | a restore brings back the offset of every column saved by its remember, whatever nested code ran between, as long as that code stores inside the arrays; the type too in the lower half of the columns |
| `CallFrameProofs.TypeNotBroughtBack` | readelf-mini/dwarf.c:4456-4487 | in the upper half the type is lost, because ncols bytes of ncols shorts are copied |
| `CallFrameProofs.InstrRoundTrip` | readelf-mini/dwarf.c:4140-4660 | any known instruction, encoded and placed anywhere, is decoded by both passes with its operands and length |
| `FrameRules.InstructionDecoded` | readelf-mini/dwarf.c:4262-4655 | every call frame instruction of DWARF 3 and the vendor ones, in the bytes the standard gives it and placed anywhere, is decoded as what it is |
| `FrameTables.WrittenIsRule` | readelf-mini/dwarf.c:4291-4652 | what is stored for a register is the kind and the number of the rule that section 6.4.2 of DWARF 3 gives the instruction: factored, signed or negated offsets as C ints, the other register, nothing for expressions |
| `FrameTables.CopiedBack` | readelf-mini/dwarf.c:4472-4487 | restore_state of as many columns as there are brings back every number, and the kinds of the lower half |
| `FrameTables.StepMirrors` | readelf-mini/dwarf.c:4275-4655 | one instruction: if the chunk shows the unwind table before it, it shows the table the instruction makes of it, and every other column is unchanged |
| `FrameTables.PassMirrors` | readelf-mini/dwarf.c:4262-4660 | the second pass over any list of instructions shows the table they build: rows, CFA rule, location, and rules column by column; kinds in the upper half are those of the program without remembering |
| `FrameSections.FirstPassNotes` | readelf-mini/dwarf.c:4140-4256 | the first pass leaves columns up to the largest granted register named, marked undefined where named, and all else as it was |
| `FrameSections.MarkedExactly` | readelf-mini/dwarf.c:4140-4256 | it keeps the rules of the CIE exactly when every register the chunk names was undefined already |
| `FrameSections.ChunkShows` | readelf-mini/dwarf.c:4130-4660 | both passes over a chunk get through and show the table its instructions build from the rules it starts with, less those of the registers it names |
| `FrameSections.ChunkPrinted` | readelf-mini/dwarf.c:3990-4666 | in a section whose CIEs show their rules, an interpreted chunk is printed as its unwind table, row by row, last row included |
| `FrameSections.ChunkKeeps` | readelf-mini/dwarf.c:3876-4666 | and the section goes on showing the rules of its CIEs, the new one included |
| `FrameSections.DumpPrinted` | readelf-mini/dwarf.c:3876-4672 | every section of regular chunks is dumped from beginning to end and prints the unwind table of every chunk |
| `LinePrograms.StateMachine.DumpRaw` | readelf-mini/dwarf.c:2300-2417 | the raw dump computes RawRun on the state registers |
| `LinePrograms.StateMachine.DumpDecoded` | readelf-mini/dwarf.c:2623-2786 | the decoded dump computes DecodedRun and prints DecodedRows, and stops where it looks up a file or a directory the unit lacks |
| `LinePrograms.StepsAgree` | readelf-mini/dwarf.c:299-400 | one round of both dumps gives the same offset and registers exactly when the opcode is not one they decode differently and the tables have the file of its row, the file and directory of its set_file, and the directory of its define_file |
| `LinePrograms.Lockstep` | readelf-mini/dwarf.c:2300-2786 | whole programs visit the same offsets with the same address, file, line, column, is_stmt and basic_block exactly when no visited opcode is divergent in that sense |
| `LinePrograms.Diverges` | readelf-mini/dwarf.c:2656-2660 | a divergent opcode really separates the dumps |
| `LinePrograms.DefinedFileMissing` | readelf-mini/dwarf.c:2710-2727 | setting the file that a DW_LNE_define_file has just added stops the decoded dump, and not the raw one |
| `LineStatements.SpecialSplits` | readelf-mini/dwarf.c:2634-2643 | the special opcode of the standard formula splits back into its two advances |
| `LineStatements.StatementTaken` | readelf-mini/dwarf.c:2623-2786 | every statement of section 6.2.5 of DWARF 3, vendor and unknown ones included, placed anywhere in a unit, has in both dumps exactly the effect on the registers that the standard gives it; the decoded one stops instead when it lacks a name it prints |
| `LineStatements.ProgramDumped` | readelf-mini/dwarf.c:2298-2830 | any program: the raw dump ends with the registers it leaves, the decoded dump prints the rows of its matrix but those that end a sequence, up to the first name it lacks |
| `LineStatements.FileRoundTrip` | readelf-mini/dwarf.c:2561-2578 | an encoded file entry is read back |
| `LineTables.AssembledRuns` | readelf-mini/dwarf.c:2634-2643 | the matrix of a table assembled with special opcodes where they reach and with advance_pc, advance_line and copy elsewhere is the table |
| `LineTables.TableRoundTrip` | readelf-mini/dwarf.c:2623-2786 | so any table, assembled and placed anywhere, is printed exactly, ending with the last row, if the unit has the file; else its first row stops the decoded dump |
| `LineTables.OneByteARow` | readelf-mini/dwarf.c:2634-2643 | tables that special opcodes reach need one byte a row |
| `LineTables.ConstAddPc` | readelf-mini/dwarf.c:2746-2750 | const_add_pc advances the address as special opcode 255 and changes nothing else; only the latter needs a file |
| `LineSections.SectionLockstep` | readelf-mini/dwarf.c:2149-2833 | over a whole section both dumps find the same units, start and leave the statements of each at the same offsets, with the same registers in between, and end the same way, exactly when the raw dump meets no opcode that they decode differently or for which the decoded dump lacks a table entry |
| `LineSections.EnterRaw` | readelf-mini/dwarf.c:2168-2295 | header, directory table and file table lead the raw dump to the statements, or it gives up or runs off the section |
| `LineSections.EnterDecoded` | readelf-mini/dwarf.c:2451-2620 | the decoded dump, which counts each table, allocates it and walks it again, comes to the same statements with tables that hold what the section does |
| `LineSections.SaveDirectories` | readelf-mini/dwarf.c:2535-2546 | the second walk stores every entry inside the table allocated for the count, once each |
| `LineSections.SaveFiles` | readelf-mini/dwarf.c:2574-2595 | the same for the file table |
| `LineSections.DumpRawSection` | readelf-mini/dwarf.c:2149-2422 | the loop over the units computes RawSection |
| `LineSections.DumpDecodedSection` | readelf-mini/dwarf.c:2435-2833 | the loop over the units, with the tables it saved for each, computes DecodedSection and prints the rows of each unit |
| `LineUnits.DirsRoundTrip` | readelf-mini/dwarf.c:2521-2548 | an encoded directory table is walked to its end, and its entries are the names |
| `LineUnits.FilesRoundTrip` | readelf-mini/dwarf.c:2550-2595 | the same for names, directories, dates and lengths of the file table |
| `LineUnits.HeaderRoundTrip` | readelf-mini/dwarf.c:2451-2519 | the header of an encoded unit, 32-bit or 64-bit, is read back with the start of its tables and the end of its statements |
| `LineUnits.UnitRoundTrip` | readelf-mini/dwarf.c:2451-2620 | an encoded unit is found and its statements are where they were put |
| `LineUnits.UnitPrinted` | readelf-mini/dwarf.c:2435-2830 | an encoded unit: from address 0, file 1, line 1, column 0, the raw dump ends with the registers of its program, and the decoded dump prints the rows of its matrix, to the end exactly when the tables have every name it looks up |
| `LineUnits.SectionRoundTrip` | readelf-mini/dwarf.c:2150-2833 | any section of encoded units: the raw dump goes through all of them; so does the decoded dump, printing exactly the rows of every matrix, if the tables have the names, and else it reads an entry that is not there |
| `ChildMemory.MemcpyToChild` | strace-4.6/cde.c:2784-2814 | the word-wise copy gets through exactly when source and child have the bytes it touches, the whole of the last long included, and then changes exactly the reached bytes and makes them the source bytes |
| `ChildMemory.CopyMeans` | strace-4.6/cde.c:2784-2814 | the first size bytes are the source; with 4-byte pokes nothing else changes, with 8-byte pokes nothing below dst or from dst + size + 4 on |
| `ExecveArgv.StoreKeepsLower` | strace-4.6/cde.c:1734-1814 | a host-wide store into a slot keeps all lower slots, whatever it spills upwards |
| `ExecveArgv.DescendingLoses` | strace-4.6/cde.c:1734-1814 | the same stores in descending order lose a pointer on a 32-bit target |
| `ExecveArgv.CopyChildArgs` | strace-4.6/cde.c:1790-1824 | argv[1..] and the NULL are copied behind the pointers already there, exactly when the last store still ends inside the segment |
| `ExecveArgv.TokensOfJoined` | strace-4.6/cde.c:1682-1724 | splitting a line of words joined by spaces gives the words |
| `ExecveArgv.CopyTokens` | strace-4.6/cde.c:1682-1724 | the words are copied one after the other; every start is stored inside the array of 200 and every word inside the segment exactly when there are no more words and there is room |
| `ExecveArgv.BuildScriptArgv` | strace-4.6/cde.c:1673-1842 | exactly when the interpreter line has at most 200 words and the segment has room for strings, pointers and the spill of the last store, it ends up with the linker, the words, and a vector of pointers to them, to the script and to argv[1..] |
| `ExecveArgv.BuildBinaryArgv` | strace-4.6/cde.c:1865-2022 | exactly when there is room, the segment ends up with the linker and the program path and a vector of pointers to them and to argv[1..] |
| `ExecveArgv.VectorSeen` | strace-4.6/cde.c:1865-2022 | read in the child at its own word size, the vector is the copied strings followed by the strings of the child, then NULL |
| `ExecveArgv.ScriptVectorSeen` | strace-4.6/cde.c:1673-1842 | for a script: linker, interpreter words, script name, argv[1..], NULL |
| `ExecveArgv.RewriteScriptExecve` | strace-4.6/cde.c:1673-1842 | exactly under those conditions the kernel finds at the new path argument the first copied string and at the new argv argument the whole vector |
| `ExecveArgv.RewriteBinaryExecve` | strace-4.6/cde.c:1865-2022 | the same for a dynamically linked program: exactly when there is room, the kernel runs the linker, on linker, program path, argv[1..] |
| `ShmatProtocol.InjectionInvisible` | strace-4.6/cde.c:2604-2744 | an injection begins exactly when there is no segment yet and the borrowed word can be peeked; it asks the kernel, by the registers of its ABI, for the segment shmid at no address and without flags; after a shmat that attaches, the child re-enters its call with every register and memory byte as before, and childshm is the segment |
| `ShmatProtocol.FailedInjection` | strace-4.6/cde.c:2675-2744 | a failed shmat stops at an assertion in the ipc variants; the native variant takes the negated errno for an address |
| `ShmatProtocol.Tracee.constructor` | strace-4.6/cde.c:127-155 | a new tcb has no segment and no setup in progress |
| `ShmatProtocol.Tracee.BeginSetupShmat` | strace-4.6/cde.c:2604-2672 | saves registers and word and turns the call into shmat, or fails an assertion, the one against a second segment included, as Begin says |
| `ShmatProtocol.Tracee.FinishSetupShmat` | strace-4.6/cde.c:2675-2744 | undoes it as Finish says |
| `ShmatProtocol.Tracee.CdeEndExecve` | strace-4.6/cde.c:2123-2133 | forgets the segment after an execve, in exec mode only |
| `ShmatProtocol.StepKeeps` | strace-4.6/cde.c:2604-2744 | every step of tracer, child and kernel keeps the protocol invariant, whatever arguments a handler rewrites, none included, and however it handles an execve |
| `ShmatProtocol.EveryRun` | strace-4.6/cde.c:2604-2744 | in every run, whatever the tracer did with each execve and each path: setting_up_shm implies no segment, every injected call asks the kernel for the tracer's own segment at no address and without flags, each call of the child is executed once, in order and with its own memory, number and arguments, as the kernel finds them by its ABI, but for redirected ones, setup completes at most once between execve exits, and childshm is the attached address exactly when the last attach worked and no execve followed |
| `ShmatProtocol.ForgottenExactly` | strace-4.6/cde.c:2123-2133 | when a call is over, childshm is cleared exactly if its number was that of execve, in exec mode |
| `ShmatProtocol.RedirectedSeen` | strace-4.6/cde.c:660-985 | every rewritten argument reaches the kernel as the address in the segment, by the registers of its ABI, but the fourth of a 64-bit target; nothing else the kernel looks at changes |
| `ShmatProtocol.RewrittenSeenExactly` | strace-4.6/cde.c:829-918 | all rewritten arguments reach the kernel exactly when the fourth of a 64-bit target is not among them, or r10 held its value already |
| `ShmatProtocol.RepeatRuns` | strace-4.6/cde.c:675-682 | a call repeated after an injection enters in its original state and, even if the handler now decides otherwise, is not injected again, so the assertion on childshm cannot fail |
| `ShmatProtocol.AuditModeDangles` | strace-4.6/cde.c:2123-2133 | in audit mode there is a run after which childshm points into an image that is gone |
| `Abbrevs.AttrsRoundTrip` | readelf-mini/dwarf.c:555-568 | the attribute loop reads back any encoded attribute list |
| `Abbrevs.SetRoundTrip` | readelf-mini/dwarf.c:526-572 | parsing the encoding of any abbreviations and the terminator gives them back in order, with the offset after it, or NULL at the end of the section |
| `Abbrevs.EntryNode.AppendAttr` | readelf-mini/dwarf.c:498-518 | an attribute is linked at the end of the list of its entry |
| `Abbrevs.AbbrevList.AddAbbrev` | readelf-mini/dwarf.c:472-495 | an entry is linked at the end of the list, and the list stands for one more abbreviation |
| `Abbrevs.AbbrevList.AddAbbrevAttr` | readelf-mini/dwarf.c:498-518 | the last entry, and no other, gains the attribute |
| `Abbrevs.ProcessAbbrevSection` | readelf-mini/dwarf.c:526-572 | the linked structure ends up standing for exactly what was parsed; nothing is read while a set is still loaded |
| `CompUnits.CountUnits` | readelf-mini/dwarf.c:1826-1878 | the counting loop counts the units of the section or reports it corrupt |
| `CompUnits.CorruptExactly` | readelf-mini/dwarf.c:1826-1878 | a unit is found corrupt exactly when its length is zero, reserved, or too large for a signed long |
| `CompUnits.UnitRoundTrip` | readelf-mini/dwarf.c:1895-1958 | the header of an encoded unit, 32-bit or 64-bit, is read back by both scans, with its length and its pointer size |
| `CompUnits.SectionRoundTrip` | readelf-mini/dwarf.c:1826-1969 | any section of encoded units is counted right, and the offset and pointer size of each are recorded |
| `CompUnits.OversizeIsLast` | readelf-mini/dwarf.c:1961-1967 | a unit is oversize exactly when it reaches past the section, so no counted unit follows it |
| `CompUnits.ScansAgree` | readelf-mini/dwarf.c:1826-1969 | the second loop visits the counted units at the same offsets, all of them unless it returns, and breaks only at the last |
| `CompUnits.ProcessDebugInfo` | readelf-mini/dwarf.c:1826-1969 | every store is inside the array allocated for the count, and without a return every entry is stored exactly once |
| `UnwindIa64.DecodeSpillMask` | readelf-mini/unwind-ia64.c:350-370 | a P4 mask consumes exactly the bytes that rlen two-bit slots need, slot n from byte n/4 |
| `UnwindIa64.Decode` | readelf-mini/unwind-ia64.c:1074-1083 | every descriptor advances, and in_body stays 0 or 1, so the table index is in range |
| `UnwindIa64.CarriesExactly` | readelf-mini/unwind-ia64.c:671-705 | what any descriptor carries on, by its code byte: R1 its body bit and five bits of length, R2 no body and R3 the body of its low bits, with the length that follows; all others leave in_body and unw_rlen alone |
| `UnwindIa64.HeaderRoundTrip` | readelf-mini/unwind-ia64.c:671-705 | encoded R1, R2 and R3 headers are decoded, in either mode, with exactly their body flag, mask, register and length |
| `UnwindIa64.EveryFormatFits` | readelf-mini/unwind-ia64.c:587-1068 | each of the P, B and X formats, laid out by its bits, has the operands its decoder reads and is decoded to its fields |
| `UnwindIa64.CarriesLatestRegion` | readelf-mini/readelf-mini.c:5080-5082 | after any stream in_body and unw_rlen are those of the latest region header |
| `UnwindIa64.Unwinder.UnwDecode` | readelf-mini/unwind-ia64.c:587-1083 | the decoder on its static state computes Decode |
| `UnwindIa64.Unwinder.DumpEntry` | readelf-mini/readelf-mini.c:5080-5082 | the loop over one table entry ends and computes Dump, starting in prologue mode with the region length left by the entry before |
| `UnwindIa64.SlotsRoundTrip` | readelf-mini/unwind-ia64.c:350-370 | unpacking a packed mask gives its slots |
| `UnwindIa64.BadCodes` | readelf-mini/unwind-ia64.c:757-760 | the codes without a format, in either mode, are reported and one byte is skipped |
| `UnwindIa64.IgnoredBits` | readelf-mini/unwind-ia64.c:587-1068 | bits that a format ignores do not change what is decoded, so that all code bytes are accounted for |
| `UnwindIa64.StreamRoundTrip` | readelf-mini/unwind-ia64.c:587-1083 | any stream of descriptors laid out by the bit formats, each suited to the region it stands in, is read back whole, field by field |
| `HashTables.SizeChains` | readelf-mini/readelf-mini.c:7388-7437 | gives up exactly when a bucket lies below the first symbol; otherwise asks for the chain words up to the first stop from maxchain on |
| `HashTables.TopIsMaximum` | readelf-mini/readelf-mini.c:7388-7396 | without the value 0xffffffff maxchain is the largest bucket |
| `HashTables.TopForgets` | readelf-mini/readelf-mini.c:7388-7396 | a bucket of 0xffffffff makes the loop forget all buckets before it |
| `HashTables.CoveredExactly` | readelf-mini/readelf-mini.c:7388-7437 | every bucket walk stops inside the words read exactly when no bucket lies past the first stop from the top bucket on, and the count fits 32 bits |
| `HashTables.OrdinaryTableCovered` | readelf-mini/readelf-mini.c:7485-7497 | so every walk stops inside when no bucket is 0xffffffff |
| `HashTables.SentinelBucketUncovers` | readelf-mini/readelf-mini.c:7388-7437 | and need not otherwise |
| `HashTables.HistogramConserves` | readelf-mini/readelf-mini.c:7716-7836 | counts add up to the buckets, and weighted by length to the symbols |
| `HashTables.CountLengths` | readelf-mini/readelf-mini.c:7746-7754 | the counting loop makes the histogram of the lengths |
| `HashTables.Coverage` | readelf-mini/readelf-mini.c:7756-7768 | row i of the coverage counts the symbols in buckets of length i or less; the last row is all symbols |
| `HashTables.StopsExactly` | readelf-mini/readelf-mini.c:7736-7744 | a .hash chain stops, and within as many steps as there are chain words, exactly when it does not come to a symbol twice |
| `HashTables.RevisitingNeverStops` | readelf-mini/readelf-mini.c:7736-7744 | a chain that comes to a symbol twice goes on for ever |
| `HashTables.HashHistogram` | readelf-mini/readelf-mini.c:7716-7768 | for chains that stop, lengths, maxlength, counts and nsyms are those of the chains, although maxlength only ever grows by one |
| `HashTables.WalkGnuChain` | readelf-mini/readelf-mini.c:7800-7812 | a walk counts the words up to and with its stop, or leaves the array when there is none |
| `HashTables.GnuHashHistogram` | readelf-mini/readelf-mini.c:7780-7836 | the .gnu.hash walks stay inside the chain array exactly when it covers them, and then give the histogram, the count of symbols and the coverage |
| `Tries.TrieNode.constructor` | strace-4.6/cde.c:233-236 | a new node is empty |
| `Tries.Trie.Insert` | strace-4.6/cde.c:238-250 | the trie stands for one more string, or for the same set when a character above 127 fails the assertion |
| `Tries.Trie.Contains` | strace-4.6/cde.c:252-263 | for every ASCII string the answer is membership |
| `Streaming.LogRoundTrip` | strace-4.6/cde.c:3111-3121 | a log of newline-free paths reads back as those paths |
| `Streaming.ReloadExactly` | strace-4.6/cde.c:3104-3127 | reloading rebuilds the set of logged paths exactly when each is non-empty, ASCII and free of newlines |
| `Streaming.NewlinePathForgotten` | strace-4.6/cde.c:490-492 | on any log, a logged path with a newline is not known to the next session |
| `Streaming.NewlinePathShadows` | strace-4.6/cde.c:3111-3121 | worse, what stands after its last newline is known, and the next session never mirrors that path |
| `Streaming.SessionExactly` | strace-4.6/cde.c:464-498 | a session completes exactly when the paths it is asked for outside the root are ASCII; it then mirrors exactly the first occurrences of the unknown ones, and logs them if it can |
| `Streaming.SessionsExactly` | strace-4.6/cde.c:464-498 | sessions one after the other, on any log that loads and with any paths, complete exactly when those are ASCII, and mirror and log what a reference over their requests says |
| `Streaming.NothingTwiceExactly` | strace-4.6/cde.c:464-498 | for any paths and any sessions, nothing is mirrored twice exactly when no path is asked for again in a session to which the log has not made it known |
| `Streaming.MirroredOnceExactly` | strace-4.6/cde.c:464-498 | for non-empty, newline-free ASCII paths, nothing is mirrored twice exactly when no path that a session without a log had to mirror is asked for again |
| `Streaming.SessionsMirrorOnce` | strace-4.6/cde.c:464-498 | over any number of sessions that can log, with non-empty, newline-free ASCII paths, the mirrored paths are the first occurrences of all unknown paths asked for, in order, each once |
| `Streaming.Streamer.LoadLog` | strace-4.6/cde.c:3104-3127 | the reading loop seeds the trie with the non-empty lines; it fails exactly on an unfinished line or a non-ASCII one |
| `Streaming.Streamer.CreateAbsPath` | strace-4.6/cde.c:435-499 | answers the path within the root and mirrors, remembers and logs it as one Touch does, or stops on a path the trie cannot take |
| `Streaming.Streamer.Serve` | strace-4.6/cde.c:435-499 | a sequence of requests acts as the session of the theorems |
| `Streaming.RunSessions` | strace-4.6/cde.c:3104-3127 | tracers run one after the other, each loading the log the one before left, act as the sessions of the theorems |
| `PathStacks.PathStack.Fill` | strace-4.6/okapi.c:152-226 | the in-place stack ends with the components of the path; every write is inside the grown array and a NULL follows the last component |
| `PathStacks.PathStack.Grow` | strace-4.6/okapi.c:169-178 | the reallocation keeps the components and the account of free slots |
| `PathStacks.PathStack.Pop` | strace-4.6/okapi.c:134-142 | drops the last component, if there is one |
| `PathStacks.PathStack.Path2Str` | strace-4.6/okapi.c:310-350 | prints the first components; the buffer account never runs out |
| `PathStacks.CanonicalizePath` | strace-4.6/okapi.c:255-277 | canonicalize_path computes CanonicalFrom |
| `PathStacks.FileIsWithinDir` | strace-4.6/okapi.c:355-421 | true exactly when the components of the directory are a prefix of those of the file |
| `Paths.ComponentsPlain` | strace-4.6/okapi.c:186-215 | no empty, "." or ".." component survives, whatever the path |
| `Paths.ShowRoundTrip` | strace-4.6/okapi.c:310-350 | resolving a printed path gives its components back |
| `Paths.CanonicalFacts` | strace-4.6/okapi.c:255-261 | canonicalization is idempotent, absolute, and equal exactly for equal components |
| `Paths.ComponentLaws` | strace-4.6/okapi.c:186-215 | the components of "/", and what one more piece adds: a name itself, nothing and "." nothing, ".." takes the last away |
| `Paths.RelativeResolves` | strace-4.6/okapi.c:243-252 | a relative path resolves from the components of its base |
| `Paths.WithinIsComponentPrefix` | strace-4.6/okapi.c:355-421 | the string test with appended slashes is the component prefix |
| `Sandbox.ExtractAfterCreate` | strace-4.6/cde.c:370-499 | extracting after creating gives the path back exactly when it did not already start with the root string |
| `Sandbox.CreateAfterExtract` | strace-4.6/cde.c:370-499 | creating after extracting gives the directory back exactly when the rest is not empty and does not start with the root string |
| `Sandbox.CreateIdempotent` | strace-4.6/cde.c:435-499 | creating twice is creating once, and the result starts with the root string |
| `Sandbox.GetRepoPathId` | strace-4.6/cde.c:4002-4015 | answers the first repository the path starts with, or -1 |
| `Sandbox.RedirectsExactly` | strace-4.6/cde.c:1010-1071 | a name is redirected exactly when its canonical path is a repository's, or is neither a binary of the tracer nor ignored; and where to; the program exits exactly outside the root, the repositories and the ignored directories |
| `Sandbox.ToldExactly` | strace-4.6/cde.c:370-425 | the directory a program is told: "/" at the root, the rest of the path below it, the real one elsewhere |
| `Sandbox.OwnBinaries` | strace-4.6/cde.c:3954-3959 | the binaries of the tracer are the paths that end in /cde, /cde-exec, /ptu or /ptu-exec |
| `Sandbox.RedirectedStartsWithRoot` | strace-4.6/cde.c:1010-1071 | every redirected name is absolute and starts with the root string or with a repository |
| `Sandbox.PrefixMeansInside` | strace-4.6/cde.c:464-468 | the prefix test means containment exactly when the path does not go on inside a component |
| `Sandbox.SiblingLeftOutside` | strace-4.6/cde.c:464-468 | with root /r the file /r2 is taken to be inside |
| `Sandbox.RedirectedInside` | strace-4.6/cde.c:1010-1071 | a redirected name lies in the root directory exactly when the meant path does not straddle the root string, and otherwise names below the root the components that were meant |
| `Sandbox.RelativeStaysBelow` | strace-4.6/cde.c:1010-1071 | a relative name opened in a sandboxed directory resolves from that directory and never above the root |
| `Sandbox.TracedBelowRoot` | strace-4.6/cde.c:500-515 | in a tracing run a canonical path is put below the package root component by component |
| `XattrEscape.EscapeOne` | strace-4.6/file.c:2744-2754 | one byte is escaped without overwriting a byte still to be read; only the last byte can be hit by the end of its own escape |
| `XattrEscape.EscapeInPlace` | strace-4.6/file.c:2739-2758 | the output is the escape of the original input, with a trailing NUL dropped exactly when some byte is printable |
| `XattrEscape.PrintXattrVal` | strace-4.6/file.c:2727-2765 | prints the address exactly on failure, wrapped size, failed allocation or failed read; otherwise the quoted text |
| `XattrEscape.FullWidth` | strace-4.6/file.c:2744-2754 | the escape fills four times the input exactly when nothing is printable |
| `XattrEscape.TextUnchanged` | strace-4.6/file.c:2744-2754 | a value is printed as it is exactly when it is text of the bytes 32 to 126 |
| `XattrEscape.OthersAsHex` | strace-4.6/file.c:2744-2754 | any other byte is printed as a backslash, an x and two lower-case hexadecimal digits |
| `XattrEscape.LastByte` | strace-4.6/file.c:2756-2757 | what the NUL test after the loop really reads |
| `XattrEscape.EscapeRoundTrip` | strace-4.6/file.c:2744-2754 | values without a backslash can be read back |
| `XattrEscape.BackslashAmbiguous` | strace-4.6/file.c:2744-2754 | others need not be |

## Left out

- Ptrace, /proc, real shared memory and all file access: the kernel's part of an injected shmat, the tracee's
  memory and the contents of files are parameters or steps of a state machine.
- All other strace system-call decoders, and the printing of names, flags and register lists: lookup and output.
- Option files, the packaging of files and directories, and provenance logging: they are file access throughout.
- Archives, symbol versions, notes and the printing of headers in readelf: lookup and output.
- Machines other than i386 and x86-64 in relocations, and relocation types that depend on the machine's quirks.
- The augmentation and the header fields of a call frame chunk, which are taken as read, machines without register names,
  and the wrap-around of section pointers.
- The values that debugging entries print: the second unit loop takes from outside whether a unit's entries could
  be read.
- Shifts of a LEB128 group by the accumulator's width or more, undefined in C, lose the group.
- Relocations.ApplyRelocation: does not model offsets so large that the pointer to the site wraps.
- ExecveArgv.BuildScriptArgv: takes the pointers of the child to fit its word, and the child to address the whole
  segment; the path rewriting for one java option is not modelled.
- CompUnits.ProcessDebugInfo: demands a section smaller than 2^62 bytes, so that sums of offset and length do not wrap.
- HashTables.HashHistogram: demands chains that stop, since the source does not end on others; sums are not bounded to
  64 bits.
- CallFrames.NeedSpace: demands a machine with register names; without them the source grants every number, with a
  column count that overflows.
- CallFrames.FrameChunk.FrameNeedSpace: demands the same.
- FrameSections.DumpPrinted: demands that chunks restore every state they remember and that CIEs remember none, since
  later chunks would pick up what is left; registers of 2^32 or more that are granted are shut out, as above.
- FrameTables.PassMirrors: says nothing of col_offset under a rule without a number.
- ShmatProtocol.EveryRun: one traced process; forks, signals and other threads that write its memory are not modelled.
- LineSections.EnterDecoded: does not bound the counts of table entries to the 32 bits the source counts them in.
- CallFrames.FrameChunk.FillColumns: does not decode the location expressions inside an expression operand.
- HashTables.SizeChains: takes the file's words from the first chain on as one sequence, although the source maps an
  address to a file offset anew at each seek.
- UnwindIa64.Unwinder.UnwDecode: delivers the operands of a descriptor and not the text printed for them.
- Tries.Trie.Contains: says nothing of a string with a character above 127 beyond the read past the child array.
- Streaming.Streamer.LoadLog: does not model NUL bytes inside a log line.
- Sandbox.RedirectedStartsWithRoot: takes the ignore lists as a given predicate and the root as an absolute path.
- Sandbox.RedirectedInside: takes the root to be canonical and other than "/", as the tracer sets it.
- XattrEscape.PrintXattrVal: takes the allocator never to grant a quarter of the address space; printable means the C
  locale.
