# A simulator client and an ELF rewriter, verified

Two programs share this repository's sources. The first is a client of an ARM simulator that speaks the GDB Remote
Serial Protocol: it writes registers and memory in framed, checksummed packets and reads the answers with a
flex-generated scanner that acknowledges, asks for retransmission and retransmits. The second loads a big-endian ELF32
object file, can remove its relocation sections in memory, and writes it again. Both rest on small helpers: the Rio
buffered I/O functions and the sorted table of debugged names.

The project models these as they are written: methods over arrays, fields and streams where the C code updates them,
each proved against a specification function, and theorems about whole runs proved over those functions.

## How the pieces fit

The wire protocol.

- `Codec` holds the formats: frames, checksums, binary escaping, memory and register writes, and how a buffer is cut into
  chunks, together with a target that decodes them.
- `Rules` states the lexical rules of scanner.l declaratively (longest match, then first rule). `Tables` holds flex's
  compressed tables and proves that walking them, with backing up, is those rules. `Scanner` is the generated scanner
  with its buffer: held character, in-place NUL, end-of-buffer pairs, refills, doubling.
- `Replies` gives the meaning of one call of `yylex` and of all of them as functions; `Lexer` is the C actions and the
  loop, proved equal to it. `Gdb` is the packet under construction; `Client` the commands.
- `Session` and `Target` carry the run-level theorems: the stop-and-wait discipline, and what the target's memory holds
  after a run, for every answer stream. `Gdb.GdbData` keeps a ghost log of what happens on the connection, always in
  agreement with the bytes written, and `Client` proves that the log is the run.

The object files.

- `ElfTypes` has the structures and their encodings, `ElfSpec` loading, printing and deleting as functions; `ElfBytes` says
  what every loaded field is in terms of the bytes of the file.
- `ElfLayout` proves that sections which tile a file print back in place under any order `qsort` may choose. `ElfCopy`
  concludes that loading and printing are inverse. `ElfDelete` shows that a deletion keeps the layout, `ElfRename` what
  deleting all relocation sections does to indices, references and offsets.
- `ElfLoad`, `ElfMain` and `ElfRun` are the C loaders, `deleteRel`, the writers and the two runs of the main program.
  `ElfSamples` has a file on either side of each condition in the theorems.

`Rio` and `Debug` model csapp.c and debug.c; `Bytes` and `Wrappers` hold what the others share.

Descriptors are oracles. A read returns any non-empty prefix of what is pending, may be interrupted any finite number of
times, reports the end of the stream, and may fail when the descriptor is unreliable; a write is alike. The order that
`qsort` gives to equal offsets is a parameter.

## Findings

- The packet array of `gdb_write_memory` is too small for some buffers. A packet can need 1042 bytes, 18 more than the
  array has (`Codec.FitsEnough`, `Codec.LargestPacket`). The loop stores behind an array of a given capacity if and only if
  some packet of the buffer does not fit (`Client.Client.WriteMemory`); with the declared 1024 bytes, if and only if the
  buffer's escaped form has more than 1000 bytes (`Codec.FitsDeclaredSize`). The capacity is a parameter.
- `loadSectionContent` leaves the pointer of an empty section unset. `deleteRel` hands such a pointer to `realloc` or `free`
  if and only if the first relocation section, or some section behind it, is empty; an empty data section behind the
  relocations of the code is enough (`ElfMain.Main.DeleteRel`, `ElfRun.CopyWithoutRel`, `ElfSamples.EmptyDataSection`).
- The main program ends by freeing the contents, after the output is closed. It frees an unset pointer if and only if some
  section is empty, and section 0 usually is (`ElfRun.Copy`, `ElfRun.CopyWithoutRel`).
- What `-d` writes does not always load again. It does if and only if, in the original table, every non-empty section that
  is not a relocation section lies below the next such section; relocation sections between two others can hide that
  from the first load (`ElfDelete.DeleteThenReadBack`). `ElfSamples.StrippedButNotLoaded` is a file that fails.
- `loadSectionContent` starts its search for the next section from index i + 1 and gives up when that section does not lie
  above section i, even if the sections tile the file (`ElfCopy.LoadsIff`, and `ElfSamples.TiledButNotLoaded` for a file
  without relocation sections).
- `deleteRel` decrements every symbol index from that of the deleted section on, reserved indices included. A reserved
  index survives exactly when the file has no relocation section, and an index that named a relocation section comes to
  name another one (`ElfRename.SymbolKeepsMeaningIff`). In `ElfSamples.SymbolsSpoiled` the index 0xFFF1 of an absolute
  symbol becomes 0xFFF0.
- `loadRelocTable` counts into a table of 256 entries without a check. A well-formed file is taken if and only if it has at
  most 256 relocation sections (`ElfRun.LoadingWellFormed`); there are files with any number of them
  (`ElfSamples.ManyRelocations`). The runs of the main program are stated with that outcome.
- `add_debug_to` on a full table stores behind the array if and only if the new name does not sort behind all others
  (`Debug.NameTable.AddDebugTo`, `Debug.FullPlace`); otherwise it ignores the name. `Debug.FullTableOverruns` is such a
  table and name.
- `rio_readlineb` returns one more than the number of bytes stored, unless the stream has a newline within the cap or has
  ended (`Rio.LineStoredMeaning`). For the stream "A" it stores one byte and returns 2 (`Rio.LastLineCountsOneMore`).

The ELF theorems assume a layout (`ElfCopy.Layout`):

- the extents of the non-empty sections tile the bytes from 52 to the section headers, and no section starts inside
  another; padding belongs to the section before it;
- relocation sections and the single symbol table have no padding, and the symbol table holds whole entries;
- the last section is non-empty, is not a relocation section and reaches the section headers;
- offsets are below 2^31, and `e_shentsize` is 40.

A file is well formed (`ElfCopy.WellFormed`) when it has such a layout and each non-empty section that is not a relocation
section is followed in the table by one at a higher offset, which by `ElfCopy.LoadsIff` is exactly when it loads.

## Model

| member | source | states |
|---|---|---|
| Bytes.HexDigits | scanner.l:61 | a hexadecimal digit is worth its place in either of the rows 0-9a-f and 0-9A-F, no other byte is one, and the first row is the one written |
| Codec.EscapedBytes | gdb_protocol.c:156-166 | the bytes stored for every byte: 7d 03, 7d 04 and 7d 5d for the three special ones, the byte itself for the others |
| Codec.FlipIsBitFive | gdb_protocol.c:161 | the byte behind an escape differs from the original in bit 5 and in no other |
| Codec.EscapeInvertible | gdb_protocol.c:154-171 | decoding the escaped form of any data gives the data back |
| Codec.EscapePlain | gdb_protocol.c:154-171 | escaped data holds no `$` and no `#`, and is at most twice as long |
| Codec.ChunkBounds | gdb_protocol.c:149-171 | every packet takes at least one byte of a non-empty buffer, so the loop ends, and at most MAX_BUFFER_SIZE escaped bytes |
| Codec.FitsEnough | gdb_protocol.c:32-33 | 24 bytes more than MAX_BUFFER_SIZE are enough room for the packets of every buffer |
| Codec.FitsDeclaredSize | gdb_protocol.c:32-37 | the packets of a buffer fit the declared 1024 bytes if and only if its escaped form has at most 1000 bytes |
| Codec.LargestPacket | gdb_protocol.c:154-176 | a concrete buffer whose packet needs all 1042 bytes |
| Codec.ChecksumIs | gdb_protocol.c:49-57 | the checksum is the sum of the bytes modulo 256: of nothing, of one byte, and of two texts together |
| Codec.FrameText | gdb_protocol.c:52-61 | the bytes of every frame, its two lower-case digits included; the continue command is `$c#63` |
| Codec.MemoryText | gdb_protocol.c:173-176 | the text of every memory write: `X`, eight digits, `,`, eight digits, `:` and the escaped data |
| Codec.ParseMemoryPayload | gdb_protocol.c:173-176 | a memory write payload is free of delimiters, and reading its columns and unescaping gives address and data back |
| Codec.HexBytesInMemory | gdb_protocol.c:85-115 | printing a word's bytes in the target's memory order gives its digits in that order |
| Codec.RegisterText | gdb_protocol.c:134-139 | the text of every register write: `P`, two digits, `=`, and the digits of the value's bytes in the target's order |
| Codec.ParseRegisterPayload | gdb_protocol.c:134-139 | parsing the twelve bytes of a register write gives number and value back, for both target byte orders |
| Gdb.WriteUint32 | gdb_protocol.c:87-115 | for all four pairs of host and target byte order, the eight digits of the value in target order and a NUL |
| Gdb.GdbData.SendBuffer | gdb_protocol.c:48-64 | the packet becomes the frame of the buffered payload, is kept as the outstanding packet and written once, and logged as sent |
| Gdb.GdbData.SendData | gdb_protocol.c:66-70 | the frame of a command is outstanding and written |
| Gdb.GdbData.FillChunk | gdb_protocol.c:150-171 | copies exactly the next chunk, escaped, behind the header's place, counting its bytes, and overruns exactly when the chunk does not fit the array |
| Gdb.GdbData.SendChunk | gdb_protocol.c:173-176 | the header fills its nineteen bytes and overwrites no data: the frame sent is that of the memory write; it overruns exactly when the frame does not fit |
| Gdb.GdbData.SendRegister | gdb_protocol.c:134-140 | the frame of the register write is outstanding and written |
| Gdb.GdbData.PacketCheck | gdb_protocol.c:204-226 | accepts and acknowledges exactly the packets whose digits are the payload's checksum, and otherwise asks again |
| Gdb.GdbData.TransmitPacket | gdb_protocol.c:228-231 | writes the outstanding packet again, byte for byte |
| Rules.TokensCoverInput | scanner.l:62-78 | the tokens of an input, put together, are the input |
| Rules.FrameIsOneToken | gdb_protocol.c:48-64 | a framed payload followed by anything lexes as one packet token, which is valid and carries the payload |
| Rules.BrokenPacketFallsBack | scanner.l:69-76 | a `$` becomes a single stray character if and only if no prefix from it on is a packet |
| Rules.AlteredFrameRejected | gdb_protocol.c:209-221 | changing any one payload byte of a frame, delimiters aside, still gives one packet token, whatever follows, and one that is not valid |
| Rules.AnyDigits | gdb_protocol.c:209-221 | a payload with any two digits is one packet, whatever follows, and valid if and only if the digits are those of its checksum, each in either case |
| Tables.DefaultChainDescends | scanner.c:750-755 | every default chain goes down to a state that owns all classes, so the inner loop ends |
| Tables.TableIsDelta | scanner.c:350-417 | the walk through base, check, default and meta tables computes the transitions of a small automaton |
| Tables.TablesRefineRules | scanner.c:350-417 | after every text, the rule that the tables accept is the first rule matching the whole of it, or none |
| Tables.BackUpIsLongest | scanner.c:761-768 | where the matcher stops, backing up to the last accepting position gives the longest match and its rule |
| Scanner.Transition | scanner.c:750-756 | the loop along the default chain ends and computes the transition |
| Scanner.Scanner.GetPreviousState | scanner.c:1101-1127 | the state recomputed after a refill is that of an uninterrupted scan, and so is the remembered accepting one |
| Scanner.Scanner.TryNulTrans | scanner.c:1134-1157 | the transition on a real NUL, zero exactly when it jams |
| Scanner.Scanner.GetNextBuffer | scanner.c:962-1097 | the partial token and everything unread are kept, both end-of-buffer characters stay in the allocation |
| Scanner.Scanner.EndOfBuffer | scanner.c:825-945 | at a NUL of the text or at the buffer's end the scan goes on where an uninterrupted one would |
| Scanner.Scanner.NextToken | scanner.c:728-770 | for every split of the input into reads, the next token is the first token of the rules on the whole rest |
| Scanner.AllTokens | scanner.c:728-945 | for every split into reads, the calls up to the end of the file give the token sequence of the whole input |
| Replies.RepliesAreAccounted | scanner.l:42-77 | the replies of all calls, from any point of a run of stray characters, are the account: their order and number |
| Replies.ReplyAccounting | scanner.l:63-77 | for every stream: one `+` per valid packet, one resend per `-`, and as many `-` as bad packets and started batches of 1023 stray characters, in the order of the account |
| Replies.OneByte | scanner.l:63-76 | what each byte other than `$` brings while e stray characters wait, of which there are never more than 1023 |
| Replies.OnePacket | scanner.l:69-75 | what a packet brings: a `-` for what waits, then `+` or `-` by its digits |
| Replies.StrayRun | scanner.l:52-56 | n stray characters cost (n + 1022) / 1023 requests, rounded down |
| Session.ReplyTexts | gdb_protocol.c:44-46 | the bytes of the three replies |
| Lexer.ParserData.HandleError | scanner.l:42-50 | asks once for retransmission exactly when stray characters wait |
| Lexer.ParserData.AddCharacter | scanner.l:52-56 | the error buffer's index stays within 0 and 1023, a full buffer being flushed first |
| Lexer.ParserData.Act | scanner.l:63-76 | the action of a token writes its replies and nothing else, and returns exactly on a valid packet |
| Lexer.Yylex | scanner.l:63-77 | a call consumes, writes and returns what the specification says, and leaves the outstanding packet alone |
| Lexer.AllCalls | scanner.l:97-99 | calls up to the end of the stream log and write exactly the accounted replies |
| Session.RunsStopAndWait | gdb_protocol.c:134-198 | in every run a frame goes out only when no other is outstanding, no reply follows a `+` before the call returns, and each resend is the outstanding frame |
| Client.SendsKeepDiscipline | gdb_protocol.c:134-198 | a command that is logged as a run keeps the log disciplined; this is the client's invariant |
| Session.LexAcksOnlyLast | scanner.l:63-77 | a call writes `+` at most once, as its last reply, and exactly when it returns a packet |
| Target.RunIsDelivered | gdb_protocol.c:134-198 | the bytes of a run decode to its payloads in order, each once and again per retransmission |
| Target.MemoryWriteIsCorrect | gdb_protocol.c:144-181 | decoding all bytes of a memory write sets exactly [address, address+size) to the buffer, whatever the simulator answers |
| Target.RegisterWriteIsCorrect | gdb_protocol.c:134-142 | the target receives that register write and nothing else |
| Client.Client.GetAnswer | gdb_protocol.c:72-83 | with the outstanding frame, the wait for its answer is logged as one transaction, and the log stays disciplined |
| Client.Client.Command | gdb_protocol.c:183-198 | a continue or step command is logged as one transaction |
| Client.Client.WriteRegister | gdb_protocol.c:134-142 | a register write is logged as one transaction, the same from every host |
| Client.Client.WriteMemory | gdb_protocol.c:144-181 | overruns the array if and only if some packet does not fit; otherwise the write is logged, and written on the wire, as the run of its chunks' transactions, each begun after the previous answer or the end of the stream |
| Rio.Writen | csapp.c:590-607 | success means that all bytes were written once and in order; failure, that a proper prefix was |
| Rio.Reader.Refill | csapp.c:624-635 | refilling loses nothing and survives interrupts |
| Rio.Reader.Read | csapp.c:620-645 | delivers the next bytes of the stream, none only at its end |
| Rio.Reader.Readnb | csapp.c:664-683 | delivers the next n bytes, or all when there are fewer |
| Rio.Reader.Readlineb | csapp.c:690-711 | stores the shortest prefix through a newline, capped, ended by a NUL; on failure nothing stored is lost |
| Rio.LineStoredMeaning | csapp.c:695-709 | why a line ends; and the result is the number of bytes stored if and only if the stream has a newline within the cap or has ended, otherwise one more |
| Rio.LastLineCountsOneMore | csapp.c:700-709 | a stream on which the result is one more |
| Rio.DeliveriesAreConsecutive | csapp.c:664-711 | the deliveries of mixed calls and what is left, put together, are the stream |
| Rio.RunCalls | csapp.c:664-711 | every interleaving of both calls on a reader makes those deliveries |
| ElfTypes.EncodeDecodeHeader | Functions/readElfHeader.c:32-100 | printing the header that 52 bytes parse to gives the bytes |
| ElfTypes.DecodeEncodeHeader | Functions/writeFile.c:9-99 | parsing the header that was printed gives the header |
| ElfTypes.SectionsRoundTrip | Functions/writeFile.c:155-165 | parsing a printed section header table gives the table |
| ElfTypes.SectionsBytesRoundTrip | Functions/readSectionHeader.c:15-29 | printing a parsed section header table gives its bytes |
| ElfTypes.SymsRoundTrip | Functions/writeFile.c:129-145 | parsing printed symbols gives the symbols |
| ElfTypes.SymsBytesRoundTrip | Functions/readSymTable.c:16-28 | printing parsed symbols gives their bytes |
| ElfBytes.WordIs | Functions/readElfHeader.c:67-68 | four bytes of the file denote the word with the first as the most significant |
| ElfBytes.HeaderIs | Functions/readElfHeader.c:3-103 | which files have a header that is loaded, and each of its fields as a sum of bytes at its own place |
| ElfBytes.SectionsAre | Functions/readSectionHeader.c:15-29 | each of the ten fields of every section header, as the sum of its four bytes |
| ElfBytes.SymbolsAre | Functions/readSymTable.c:5-30 | the symbols' number and every field of each, at sixteen bytes a symbol from the first symbol table's offset |
| ElfBytes.RelocationsAre | Functions/readRelocTable.c:23-32 | both fields of every relocation entry, as sums of their bytes |
| ElfLoad.Input.LoadHeader | Functions/readElfHeader.c:3-103 | the fourteen fields read one after another are the header's, and it gives up exactly where the specification does |
| ElfLoad.Input.LoadTabSectionHeader | Functions/readSectionHeader.c:5-29 | the table of ten-word entries at the header's offset |
| ElfLoad.Input.LoadSymTable | Functions/readSymTable.c:3-33 | the first symbol table's entries and their number, -1 when there is none |
| ElfLoad.Input.LoadRelocTable | Functions/readRelocTable.c:4-46 | the entries of every relocation section and their counts, a failed read, or the 257th count, behind the table |
| ElfRun.TablesAre | Functions/readRelocTable.c:12-36 | there is one table for each relocation section, in their order, and each holds its section's entries |
| ElfLoad.Input.LoadSectionContent | Functions/readSectionContent.c:3-43 | every section's content as the specification reads it, or failure; the pointers of empty sections stay unset |
| ElfSpec.UnsetIsEmpty | Functions/readSectionContent.c:11-14 | as loaded, deletion meets an unset pointer if and only if a section at or behind a relocation section is empty |
| ElfLoad.NextSection | Functions/readSectionContent.c:16-21 | the inner loop computes the search that the next rows characterise |
| ElfCopy.NextFromIsLeast | Functions/readSectionContent.c:16-21 | started above section i, the search ends at a section with the least offset above it |
| ElfCopy.NextIsEnd | Functions/readSectionContent.c:10-23 | under the layout it ends where section i does |
| ElfCopy.ContentsLoaded | Functions/readSectionContent.c:10-41 | the loaded contents are the pieces that the sections' extents cut out of the file |
| ElfCopy.LoadsIff | Functions/readSectionContent.c:14-25 | a file with a layout loads if and only if the section after each non-empty one, relocation sections aside, lies above it |
| ElfSamples.TiledButNotLoaded | Functions/readSectionContent.c:14-25 | a file that two swapped sections and a third tile, and that does not load |
| ElfLayout.PrintedInPlace | Functions/writeFile.c:113-153 | printing in any order by offset puts every section at its own offset |
| ElfCopy.CopyIsExact | Functions/writeFile.c:3-165 | loading a well-formed file and writing it gives its bytes up to the end of the section headers, for every order of equal offsets |
| ElfCopy.ReadBack | Functions/writeFile.c:3-165 | what is written for a structure that agrees with a layout loads as that structure |
| ElfDelete.LayoutKept | Functions/implantation.c:9-49 | a deletion leaves sections that tile the shorter file, each where its new offset says |
| ElfDelete.SoundKept | Functions/implantation.c:9-49 | a deletion keeps contents, symbols and header in agreement with the layout |
| ElfDelete.DeleteThenReadBack | Functions/implantation.c:4-54 | for every well-formed file, what is written after all deletions loads if and only if each non-empty section that stays lies below the next one that stays, and then as what is in memory |
| ElfDelete.KeptAboveSame | Functions/implantation.c:18-35 | a deletion neither makes nor breaks that condition |
| ElfSamples.StrippedButNotLoaded | Functions/implantation.c:4-54 | a well-formed file that fails the condition: whatever order qsort leaves, the result does not load |
| ElfRename.DeleteRelRenames | Functions/implantation.c:7-53 | the other sections remain, in order and with their contents, and string table index, links and symbol indices are renamed; for all inputs |
| ElfRename.LinksFollow | Functions/implantation.c:36-40 | the links of sections of kind 2, 5 and 6 name the same section under its new index, all other links keep their value; for all inputs |
| ElfRename.SymbolKeepsMeaningIff | Functions/implantation.c:42-48 | a symbol's section index keeps its meaning if and only if it named no relocation section, or, reserved, there was none |
| ElfSamples.SymbolsSpoiled | Functions/implantation.c:36-48 | a well-formed file in which the symbol table's link moves from 4 to 3, while an absolute symbol and one of the relocation section lose their meaning |
| ElfRename.IndexStaysIff | Functions/implantation.c:36-40 | an index that is not followed still names its section if and only if no relocation section stood before it |
| ElfRename.NewIndexIncreasing | Functions/implantation.c:18-27 | the sections that remain keep their order |
| ElfRename.HeaderRenamed | Functions/implantation.c:10-15 | section count, string table index and place of the section headers after the deletions, with wrap-around |
| ElfRename.OffsetsAfterDeleteRel | Functions/implantation.c:31-35 | in a well-formed file each section and the section headers move down by exactly the relocation bytes before them |
| ElfMain.Main.DeleteRel | Functions/implantation.c:4-54 | touches an unset pointer if and only if one stands at or behind a relocation section; otherwise the loops in place compute the deletion, the number of sections left to visit falling in each round |
| ElfMain.Main.DeleteSection | Functions/implantation.c:9-49 | one round moves headers, contents and their pointers down and adjusts offsets, links and symbols; it touches every pointer from the section on |
| ElfMain.Main.FreeContents | ARM_runner.c:163-165 | the final loop frees an unset pointer if and only if one is left |
| ElfMain.SortsIff | Functions/writeFile.c:103-126 | being sorted by `compare` is being an order by signed offset |
| ElfMain.SignedIs | structure.h:18-21 | the offset compared is the 32-bit value as a signed int |
| ElfMain.OrderExists | Functions/writeFile.c:126 | there is always such an order |
| ElfMain.Main.WriteHeader | Functions/writeFile.c:3-101 | for class 1, writes the 52 bytes from the start of the file |
| ElfMain.Main.WriteSectionContent | Functions/writeFile.c:113-153 | writes the sections' parts in that order, symbols for the symbol table |
| ElfMain.Main.WriteSectionHeader | Functions/writeFile.c:155-165 | writes the words of every section header |
| ElfRun.LoadMain | ARM_runner.c:66-71 | the five loaders in turn give the loaded structure, give up, or overrun the table of counts, each exactly when the specification does |
| ElfRun.LoadingWellFormed | ARM_runner.c:66-71 | a well-formed file is loaded if and only if it has at most 256 relocation sections, and otherwise overruns |
| ElfSamples.ManyRelocations | structure.h:5-8 | well-formed files with any number of relocation sections; they overrun if and only if there are more than 256 |
| ElfRun.Copy | ARM_runner.c:107-114 | the copying run of a well-formed file with at most 256 relocation sections writes the source's bytes; with more it overruns; its end is clean if and only if no section is empty |
| ElfRun.CopyWithoutRel | ARM_runner.c:116-124 | under the same bound, the deleting run goes wild if and only if a section at or behind a relocation section is empty; otherwise it writes a file that loads exactly under the condition on the order, and then as the structure without relocation sections |
| ElfSamples.EmptyDataSection | Functions/implantation.c:23-28 | a well-formed file of the common kind on which deletion touches an unset pointer |
| Debug.StrcmpIsOrder | debug.c:35-36 | comparing tells names apart and is antisymmetric |
| Debug.StrcmpIsDictionary | debug.c:35-36 | the order is that of a dictionary over unsigned bytes |
| Debug.NameTable.AddDebugTo | debug.c:32-45 | the table stays sorted and gains exactly the name; a full one ignores it, or overruns exactly when the name does not sort behind the last |
| Debug.FullPlace | debug.c:35-42 | in a full sorted table the place lies behind the array if and only if the name sorts behind the last one |
| Debug.FullTableOverruns | debug.c:38-43 | a full table and a name that would be stored behind it |
| Debug.NameTable.IsDebugged | debug.c:47-65 | binary search answers membership |
| Debug.AddAll | debug.c:32-45 | after any series of additions the table holds exactly the first 64, and none overran if and only if all later names sort behind those |

## Left out

- Sockets, processes, threads, signals and their wrappers in csapp.c, and arm_simulator_interface.c.
- Printing, tracing, option handling, and the scanner's echo of newlines.
- correctSymTable, which adds an address to the value of every symbol of the sections named .text and .data, and printName,
  which reads those names, are not modelled. correctABSReloc and the sign extension helpers are unfinished in the source.
- rio_readn: the unbuffered twin of rio_readnb.
- Rio.Writen: an interrupted descriptor is interrupted finitely often; without that bound the C loop need not end.
- Scanner.Scanner.NextToken: the descriptor delivers data, interrupts and the end of file; on any other error the
  generated code ends the process. The buffer's size does not overflow an int.
- Scanner.Scanner.GetNextBuffer: the branches for a buffer that must not be filled and for one extended by half after the
  read are not modelled; this scanner never takes them. The count kept both in the scanner and in its buffer is one field.
- The stack of input buffers, the accessors and the scanning of strings in scanner.c.
- Gdb.GdbData.PacketCheck: sscanf is modelled on the two hexadecimal digits that the scanner guarantees, so its
  handling of blanks, signs and prefixes does not appear. The answer is a copy of the token; the C pointer into the
  scanner's buffer is valid only until the next token.
- Gdb.GdbData.SendBuffer: the packet array's capacity is a parameter, see Findings; what a store behind it destroys is not
  modelled, the call ends there.
- Client.Client.WriteMemory: the address wraps at 2^32; the end-to-end theorem is for buffers that end at or below it.
- ElfLoad.Input.LoadHeader: files whose class is not 1 are treated as a failure; the branch for them reads eight bytes
  into four-byte fields. ElfMain.Main.WriteHeader asks for class 1 for the same reason. The host is little-endian, so that bswap converts from big-endian.
- ElfLoad.Input.LoadSectionContent: an allocation that fails is a failure, and sections of 2^31 bytes or more fail as
  negative sizes do; the content of an empty section is an empty sequence, whose pointer is marked unset.
- ElfMain.Main.WriteHeader: a disk that refuses a write, on which the writers exit or go on, is not modelled.
- ElfMain.Main.DeleteRel: contents are values, and of their pointers only whether they are set appears. What follows the use of
  an unset one is not modelled; the run ends there.
- Debug.NameTable.AddDebugTo: what a store behind the full table destroys is not modelled; the call ends there.
- ElfRun.LoadMain: likewise, a count written behind its table ends the run. A section header table that cannot be read is a
  failure; the source goes on with a null table.
- ElfLoad.Input.LoadTabSectionHeader: the source allocates `e_shentsize` bytes for each entry and writes 40; that an entry
  size below 40 is too small for that does not appear. Well-formed files have 40.
- ElfLoad.Input.LoadSymTable: the size of its allocation, sixteen times that of the section, does not overflow.
