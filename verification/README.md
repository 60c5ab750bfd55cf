# Verified model of libaps2

A Dafny model of two parts of the APS2 driver, with proofs of what they are for.

**Option parser and usage printer** (`src/C++/optionparser.h`). `Parser::workhorse` reorders argv in
place while it parses, is run once to size arrays and once to fill them, and chains the options it
finds into circular lists with a wrap mark. The usage printer splits help texts into a grid of parts,
measures columns with a shrinking threshold and wraps text through a 16-slot ring.

**Transport and upload path** (`src/lib/APS2*.cpp`). Data is split into datagrams and packets, sent
over UDP in windows or over TCP one datagram at a time, and answers are taken from a queue or framed
from a word stream. On top of it stand the flash and SDRAM transfers, the cache bracket around
uploads, the compilation of waveform mode into an instruction program, and the self-test signature.

## How it is modelled

| files | contents |
|---|---|
| `Arguments`, `ArgScan`, `Reparse` | strings and descriptors; the parse as a scan that moves nothing; parsing a second time |
| `Rendering` | how options are written, and that the scan finds them as they were meant |
| `ArgParser`, `ParserRuns` | the in-place parser against that scan; `Stats`, `Parser`, one after the other |
| `OptionChain`, `OptionStore` | the circular list; `options[]`, `buffer[]` and the lists in them |
| `Glyphs`, `Wrapping`, `LineWrapping` | character widths; where lines break; the ring buffer |
| `UsageGrid`, `LineParts`, `ColumnWidths` | the grid of a row; its iterator; column widths |
| `Words`, `Datagrams`, `PacketBytes` | machine words; the two stages of splitting; packet bytes |
| `UdpLink`, `UdpMemory`, `TcpFraming`, `TcpLink`, `TcpMemory` | the two transports, and a memory behind each |
| `ConfigMemory` | flash, configuration SDRAM, bitfiles |
| `WaveformProgram`, `Board` | instructions, sequencer, set_run_mode; uploads and the cache |
| `SelfTest` | the expected signature of the DAC self-test |

Code that works in place is imperative here as well: methods over arrays and classes with the fields
of the source's, each proved against a function on values, about which the lemmas speak. C pointers
into argv are positions; an argument is none, attached text or the next token. The sentinel at the end
of a usage array is left off, and the tag bit in list pointers is a flag of its own. Machine words are
integers with their range, and wrap-around is written out (`Wrap`); `size_t` is 64 bits wide. A
device is a function from a state and a request to a state and answers.

Where a property holds only under a condition the exact condition is proved, and where the code
and its purpose part a lemma says so:

- the two passes over a command line perform the same number of options exactly if neither of two
  things happens (`Reparse.CountsAgree`). A POSIX pass after a gnu one that rejected a token may stop
  at a non-option in front of that token, and so miss the options that the token performs before it
  is rejected (`Reparse.FailedGnuThenPosix` is such a line); the sizes are then too great. And a gnu
  pass after a POSIX one may find options behind the first non-option (`Reparse.GnuGoesOn`); the sizes
  are then too small, which is the one case that `ParserRuns.SizeThenParse` excludes;
- finished() gets the number of non-options exactly unless argc goes beyond a null pointer in argv and
  the scan stopped in front of a token (`ArgParser.ReportedExact`). The correction at
  `src/C++/optionparser.h:1846-1848` looks only at the token where the scan stopped, so
  `ArgParser.OverlongArgc` gets different counts from the two flags;
- the erase loop ends having covered the region exactly if the region ends at or below 0xFFFF0000, or
  starts there and reaches 2^32 (`ConfigMemory.EraseCovers`): one that ends inside the last page of
  the address space is erased for ever, one that starts lower and reaches 2^32 gets one page only, and
  an empty one at 0xFFFF0000 erases everything (`ConfigMemory.RoundsFor`);
- the validation loop compares every word exactly if the data has at most 256 words, ends below 2^32,
  or reaches it within the first piece (`ConfigMemory.ComparesAll`);
- a waveform-mode program plays the two waveforms exactly if both lengths are multiples of 4 up to
  2^23 (`WaveformProgram.PlaysIff`); lengths of 1 to 3 samples turn instructions into all ones;
- on a TDM host a sequence upload while the cache is enabled writes SDRAM behind it, and the cache
  agrees afterwards exactly if the part of the upload that is cached already stood there
  (`Board.UnswitchedUpload`). Two steps take any board there (`Board.OutOfStep`).

The comment at `src/lib/constants.h:405` calls the second instruction of the continuous-wave scaffold
a WAIT; the word is a SYNC by the instruction set (`doc/instruction-set.rst`), and the model follows
the word. The same document says at lines 174 and 197 that an engine plays for *count* quad-samples.
The driver writes the length in quad-samples less one, and the entries at `src/julia/createLLmem.jl:193-198`
have a count of 7 at addresses eight quad-samples apart, so in the model an engine plays for count + 1.
"Full length" rests on that reading.

## Model

| member | source | states |
|---|---|---|
| Arguments.StreqLoop | src/C++/optionparser.h:1449-1454 | name match up to the end or `=` of the given text |
| Arguments.StreqabbrLoop | src/C++/optionparser.h:1482-1491 | abbreviated match by the longest common prefix and the minimum length |
| Arguments.CommonPrefixUnique | src/C++/optionparser.h:1459-1467 | the common prefix is the only length at which the two strings agree and then stop agreeing |
| Arguments.LongIndexMeaning | src/C++/optionparser.h:1733-1757 | an exact name wins; otherwise an abbreviation counts exactly if it is the only one |
| Arguments.FindLong | src/C++/optionparser.h:1733-1757 | finds the descriptor that LongIndexMeaning describes |
| Arguments.FindAbbr | src/C++/optionparser.h:1743-1751 | finds the first abbreviated match at or behind a position |
| Arguments.FindShort | src/C++/optionparser.h:1783-1785 | finds the first descriptor with the option character |
| Arguments.FindUnknown | src/C++/optionparser.h:1801-1805 | finds the descriptor for unknown options |
| Arguments.BundledCheckersStable | src/C++/optionparser.h:965-994 | for None, Optional, NonEmpty and Required, declining a detached argument does not depend on which token it is, and a missing argument is never accepted |
| ArgScan.PartitionPermutes | src/C++/optionparser.h:1673-1860 | a stable partition by marks is a permutation |
| ArgScan.TokenEffectStable | src/C++/optionparser.h:1709-1837 | with such checkers a token that took no detached argument has the same effect whatever follows it |
| Reparse.Rescan | src/C++/optionparser.h:1673-1860 | scanning the consumed tokens of a scan in front of its other tokens, with either flag, consumes exactly them again |
| Reparse.ReparseChangesNothing | src/C++/optionparser.h:223-231 | after a successful gnu pass a second pass with either flag performs the same options, leaves the same non-options and moves nothing |
| Reparse.PosixKeepsOrder | src/C++/optionparser.h:1687-1698 | a POSIX pass never moves anything |
| Reparse.CountsAgree | src/C++/optionparser.h:1654-1671 | by which options two passes with any flags differ, and that they perform equally many exactly if there are none of either kind |
| Reparse.GnuGoesOn | src/C++/optionparser.h:1687-1698 | a gnu pass performs what a POSIX pass performs, and then what stands behind the non-option at which that one stops |
| Reparse.FailedGnuThenPosix | src/C++/optionparser.h:1810-1812 | a line on which the sizing pass counts one option too many |
| Rendering.LineParsed | src/C++/optionparser.h:1673-1860 | any options, each written as --name, --name=value, --name value, -abc, -abcvalue or -abc value (long ones also with a single minus), mixed with other arguments and followed by what may follow: exactly they are performed, each with its own name and argument, and exactly the others are left |
| Rendering.NamesMatch | src/C++/optionparser.h:1449-1491 | which texts a long name answers to, exactly and abbreviated |
| Rendering.CheckersTake | src/C++/optionparser.h:965-994 | what the bundled checkers accept of these ways to write an option |
| Rendering.FileExample | src/C++/optionparser.h:1767-1775 | `--file=x` gives the argument x |
| ArgParser.Shift | src/C++/optionparser.h:1510-1516 | rotates the token over the non-options before it and leaves the rest of argv alone |
| ArgParser.OfferOption | src/C++/optionparser.h:1794-1835 | one option offered to its checker and the action, and the argument it takes |
| ArgParser.ProcessGroup | src/C++/optionparser.h:1724-1837 | a group of short options has the effect the scan gives it, or the action refuses part-way |
| ArgParser.ProcessToken | src/C++/optionparser.h:1709-1837 | the same for a long option or a group |
| ArgParser.OptionRound | src/C++/optionparser.h:1683-1844 | one round of the loop for an option keeps argv the stable partition of what has been scanned |
| ArgParser.Workhorse | src/C++/optionparser.h:1673-1860 | on success argv is the stable partition of its tokens, the performed options are the scan's in order, finished() gets the tail of non-options, with the count of Reported; on failure a checker rejected an argument or the action refused |
| ArgParser.ReportedExact | src/C++/optionparser.h:1846-1859 | when that count is right, both directions, and that it is never too small |
| ArgParser.OverlongArgc | src/C++/optionparser.h:1846-1859 | an argv for which the two flags report different counts |
| ArgParser.Action.Perform | src/C++/optionparser.h:1561-1579 | counts, or stores, one option; when it refuses |
| ParserRuns.TokensArranged | src/C++/optionparser.h:1673-1860 | a parsed argv is a permutation of the old one and its tokens are the reordered tokens |
| ParserRuns.Stats.AddUsage | src/C++/optionparser.h:1657-1666 | every index fits, by the smallest array |
| ParserRuns.Stats.Add | src/C++/optionparser.h:1654-1671 | buffer_max grows by the number of options performed, up to the greatest int; argv is laid out unless that is reached |
| ParserRuns.Parser.Parse | src/C++/optionparser.h:1602-1652 | stores the performed options up to bufmax, in order, with every access in bounds; reports the error, the count of non-options and where they start; what it does when the options outnumber an int |
| ParserRuns.SizeThenParse | src/C++/optionparser.h:1561-1671 | arrays of the sizes that the sizing pass found are large enough for the pass that fills them, with one slot to spare exactly if that pass does not fall short of options of a rejected token |
| ParserRuns.ParseLine | src/C++/optionparser.h:1602-1652 | on such a line the parser succeeds, the list of any index holds exactly the options meant with it, in order, and the other arguments stand at the end of argv, where the parser says |
| ParserRuns.ReportsAgain | src/C++/optionparser.h:223-231 | when a second pass reports as many non-options as a successful gnu pass did, both directions |
| OptionChain.Option.First | src/C++/optionparser.h:698-703 | finds the head of the chain |
| OptionChain.Option.Last | src/C++/optionparser.h:727-727 | finds its last element |
| OptionChain.Option.Next | src/C++/optionparser.h:764-764 | the next element, or none at the wrap |
| OptionChain.Option.Prev | src/C++/optionparser.h:739-739 | the inverse of Next |
| OptionChain.Option.Count | src/C++/optionparser.h:653-661 | the length of the chain, from every element of it |
| OptionChain.Option.Append | src/C++/optionparser.h:792-799 | the chain with one more element at its end |
| OptionStore.Store.FindFree | src/C++/optionparser.h:1606-1610 | the first unused buffer slot |
| OptionStore.Store.Perform | src/C++/optionparser.h:1614-1630 | logs the option, drops it when the buffer is full, and keeps every list chained |
| OptionStore.Store.Walk | src/C++/optionparser.h:754-764 | following next() visits exactly the stored options with the index, in command-line order |
| OptionStore.Store.WalkBack | src/C++/optionparser.h:727-739 | following prev() from last() visits them backwards |
| Glyphs.Decode | src/C++/optionparser.h:2487-2515 | one character: its bytes and its screen columns |
| Glyphs.EncodedDecodes | src/C++/optionparser.h:2487-2515 | decoding undoes the UTF-8 form of section 3 of RFC 3629, whatever character follows |
| Glyphs.ColsCut | src/C++/optionparser.h:2095-2125 | widths add up at character boundaries |
| Wrapping.FitLargest | src/C++/optionparser.h:2484-2518 | nothing longer fits |
| Wrapping.CutMeaning | src/C++/optionparser.h:2475-2548 | no break if the text fits; else at the last space that fits; else after the last character that fits |
| Wrapping.WrapRejoins | src/C++/optionparser.h:2455-2555 | the lines rejoin to the text, with one space lost per break at a space |
| Wrapping.WrapFits | src/C++/optionparser.h:2455-2555 | every line fits into the width |
| LineWrapping.LineWrapper.FindCut | src/C++/optionparser.h:2476-2547 | the loop finds the cut |
| LineWrapping.LineWrapper.WriteOneLine | src/C++/optionparser.h:2415-2430 | writes the oldest waiting line |
| LineWrapping.LineWrapper.Process | src/C++/optionparser.h:2472-2553 | queues the lines of a chunk and writes those that are due, with at most 15 of 16 slots in use; if there is any line the first one is written at once, on the current row, and if more are, 15 are left |
| LineWrapping.RowsLayout | src/C++/optionparser.h:2415-2430 | event by event: the lines, with a line break and the indentation between two of them |
| LineWrapping.LineWrapper.Flush | src/C++/optionparser.h:2439-2448 | writes what waits, each line on a row of its own |
| LineWrapping.LineWrapper.Run | src/C++/optionparser.h:2349-2567 | over any run of process calls and a flush every line is shown once and in order |
| UsageGrid.ParseRowAt | src/C++/optionparser.h:2022-2068 | the grid of a row stands in the text with its separators between the parts |
| LineParts.LinePartIterator.UpdateLength | src/C++/optionparser.h:2095-2125 | length in bytes and columns of the part at the pointer |
| LineParts.LinePartIterator.NextTable | src/C++/optionparser.h:2141-2156 | skips to the next table |
| LineParts.LinePartIterator.NextRow | src/C++/optionparser.h:2173-2209 | goes to the start of the next row, or says that the table ends |
| LineParts.LinePartIterator.Next | src/C++/optionparser.h:2220-2282 | the next part of the grid, line by line and then column by column, empty where a cell is shorter; false exactly after the last |
| LineParts.LinePartIterator.RestOfRow | src/C++/optionparser.h:2220-2282 | calling next() until it says false gives the parts of the whole row |
| LineParts.RowPartsCount | src/C++/optionparser.h:2211-2220 | C cells with at most M breaks make C * (M + 1) parts |
| LineParts.GridPartAt | src/C++/optionparser.h:2211-2220 | which part comes when |
| LineParts.MaxUptoReached | src/C++/optionparser.h:2080-2082 | some cell has as many lines as the grid |
| LineParts.PartJoined | src/C++/optionparser.h:2620-2622 | a part is joined exactly if a tab or vertical tab follows it in the text |
| LineParts.LinesRejoin | src/C++/optionparser.h:2034-2037 | the lines of a text are what stands between its newlines |
| ColumnWidths.MeasureTable | src/C++/optionparser.h:2604-2626 | widths of the columns of a table under a threshold, and its last column |
| ColumnWidths.WidthIsMaximum | src/C++/optionparser.h:2611-2623 | a column is as wide as its widest part that counts |
| ColumnWidths.TableRows | src/C++/optionparser.h:2029-2037 | the parts of a table are those of every line of every help text up to the next descriptor without one, in order, none missing and none twice |
| ColumnWidths.CountsIf | src/C++/optionparser.h:2611-2623 | which parts have a say in a width |
| ColumnWidths.LastColumnIsMaximum | src/C++/optionparser.h:2611-2612 | the last column is the greatest one in use |
| ColumnWidths.ChooseWidths | src/C++/optionparser.h:2602-2648 | the loop ends, the widths left of the last column add up to at most the width, and the largest possible threshold is used |
| Datagrams.UnpackPack | src/lib/APS2Datagram.h:50-63 | the fields of the command word do not overlap |
| Datagrams.PackUnpack | src/lib/APS2Datagram.h:50-63 | and cover it |
| Datagrams.PackFields | src/lib/APS2Datagram.h:50-63 | which bits each field has |
| Datagrams.AckExact | src/lib/APS2Datagram.cpp:63-132 | for every command and firmware, exactly the right acknowledge is accepted, and which error another one is |
| Datagrams.ChunkDatagrams | src/lib/APS2Datagram.cpp:33-51 | the loop makes the datagrams of the recursive description |
| Datagrams.ChunkPackets | src/lib/APS2EthernetPacket.cpp:148-190 | likewise for packets |
| Datagrams.DatagramShapes | src/lib/APS2Datagram.cpp:33-51 | counts equal payload lengths, no datagram is empty, alignment is kept |
| Datagrams.PacketShapes | src/lib/APS2EthernetPacket.cpp:148-190 | the same for packets, at most 256 words each |
| Datagrams.DatagramsFull | src/lib/APS2Datagram.cpp:33-51 | every datagram but the last one is full |
| Datagrams.PacketsFull | src/lib/APS2EthernetPacket.cpp:148-190 | every packet but the last one is full, and they are numbered |
| Datagrams.DoubleChunking | src/lib/APS2EthernetPacket.cpp:148-190 | all packets of all datagrams make the one flat write, wrapping alike |
| Datagrams.DatagramsWrite | src/lib/APS2Datagram.cpp:33-51 | so do the datagrams |
| Datagrams.WriteStores | src/lib/APS2.cpp:787-819 | what a flat write stores, and that it stores nothing else |
| Datagrams.WriteMemory | src/lib/APS2.cpp:787-819 | rejects exactly the unaligned; otherwise one flat write in datagrams and packets that are all 16-byte aligned |
| Datagrams.WriteWord | src/lib/APS2.cpp:810-818 | the command word of a memory write |
| PacketBytes.Serialize | src/lib/APS2EthernetPacket.cpp:67-125 | header, address if the command has one, payload, zeros up to 64 bytes |
| PacketBytes.Parse | src/lib/APS2EthernetPacket.cpp:27-65 | the fields of a received packet |
| PacketBytes.BigEndian | src/lib/APS2EthernetPacket.cpp:31-39 | the most significant byte comes first |
| PacketBytes.FrameSize | src/lib/APS2EthernetPacket.cpp:120-125 | the size of a packet, by command and payload |
| PacketBytes.RoundTrip | src/lib/APS2EthernetPacket.cpp:27-125 | parsing what was serialized: the same packet and zero words without ack; with ack the address becomes the first payload word |
| UdpLink.Link.SendChunk | src/lib/APS2Ethernet.cpp:542-569 | numbers and sends a window and judges the acknowledge of its last packet, or leaves all answers where they are |
| UdpLink.Link.SendWindow | src/lib/APS2Ethernet.cpp:506-536 | a window is a stretch of the wire |
| UdpLink.Link.SendWindows | src/lib/APS2Ethernet.cpp:490-540 | for any size of window, or without acknowledges: all packets once and in order; accepted exactly if every acknowledge is good; stops at a bad one |
| UdpLink.Link.SendDatagram | src/lib/APS2Ethernet.cpp:463-480 | one datagram; the answer to a read is left in the queue, no acknowledge is |
| UdpLink.Link.Request | src/lib/APS2.cpp:821-837 | a read gets the answer to that very request |
| UdpLink.Link.Run | src/lib/APS2Ethernet.cpp:459-569 | over any run of transfers and reads the queue is empty between them and every read gets its own answer |
| UdpLink.RunPaced | src/lib/APS2Ethernet.cpp:463-480 | never more than 20 packets outstanding |
| UdpLink.WireKeepsPackets | src/lib/APS2Ethernet.cpp:519-530 | only every twentieth and the last packet asks for an acknowledge, packets are numbered within twenty, and otherwise unchanged |
| UdpLink.ReadRequest | src/lib/APS2Ethernet.cpp:465-475 | a read goes out as one packet with its datagram's command, count and address |
| UdpLink.AckedIff | src/lib/APS2Ethernet.cpp:542-569 | a transfer is accepted exactly if each acknowledge is the right one of the older firmware |
| UdpMemory.UploadArrives | src/lib/APS2Ethernet.cpp:459-540 | at a memory behind the link the packets of a transfer amount to one flat write |
| UdpMemory.UploadAndRead | src/lib/APS2.cpp:787-837 | write_memory rejects exactly the unaligned; otherwise a read returns what was written |
| TcpFraming.TcpStream.Read | src/lib/APS2Ethernet.cpp:571-629 | consumes exactly one well-formed response |
| TcpFraming.Unambiguous | src/lib/APS2Ethernet.cpp:593-621 | a stream begins with at most one response |
| TcpFraming.ResponseShape | src/lib/APS2Ethernet.cpp:593-621 | which responses have an address and how much payload |
| TcpFraming.StreamsDiffer | src/lib/APS2Ethernet.cpp:593-621 | different lists of responses are different streams |
| TcpFraming.TcpStream.ReadAll | src/lib/APS2Ethernet.cpp:571-629 | repeated reads give back any list of responses |
| TcpLink.DataUnambiguous | src/lib/APS2Datagram.cpp:53-61 | the words of a datagram tell where it ends |
| TcpLink.TransfersDiffer | src/lib/APS2Ethernet.cpp:419-447 | different lists of datagrams are different streams |
| TcpLink.Link.SendOne | src/lib/APS2Ethernet.cpp:420-456 | a datagram, and its own acknowledge |
| TcpLink.Link.Send | src/lib/APS2Ethernet.cpp:412-457 | stops at the first bad acknowledge, leaves no word of an answer behind |
| TcpLink.AcceptedIff | src/lib/APS2Ethernet.cpp:452-456 | a transfer is accepted exactly if each acknowledge is the right one of the newer firmware |
| TcpLink.Link.Request | src/lib/APS2.cpp:821-837 | a read and its own answer |
| TcpMemory.TransferArrives | src/lib/APS2Ethernet.cpp:412-457 | a memory that acknowledges with tag 0x81 and the address takes every write, and none is refused |
| TcpMemory.UploadAndRead | src/lib/APS2.cpp:787-837 | write_memory rejects exactly the unaligned; otherwise a read returns what was written |
| ConfigMemory.ProgramErased | src/lib/APS2.cpp:1003-1021 | erased flash takes any data, and nothing else changes |
| ConfigMemory.ChunksProgram | src/lib/APS2.cpp:1003-1021 | writing in chunks programs the same words |
| ConfigMemory.ErasePagesErase | src/lib/APS2.cpp:1024-1079 | consecutive pages erase exactly their range, also around the end of the address space |
| ConfigMemory.ErasePageAt | src/lib/APS2.cpp:1046-1078 | where the pages lie |
| ConfigMemory.EraseCovers | src/lib/APS2.cpp:1046-1078 | when the loop ends with the region covered, both directions |
| ConfigMemory.EraseNeverEnds | src/lib/APS2.cpp:1046-1078 | a region that ends inside the last page |
| ConfigMemory.EraseTooShort | src/lib/APS2.cpp:1046-1078 | a region that passes the end of the address space |
| ConfigMemory.Storage.EraseFlash | src/lib/APS2.cpp:1024-1079 | rejects exactly the unaligned; otherwise consecutive 64 KB pages, for every region that the loop covers |
| ConfigMemory.Storage.WriteFlash | src/lib/APS2.cpp:987-1022 | pads, erases before it writes, every write inside erased pages; data and padding read back and nothing outside the pages changes |
| ConfigMemory.Storage.WriteDram | src/lib/APS2.cpp:839-873 | rejects exactly the unaligned; otherwise one flat write |
| ConfigMemory.PaddedWords | src/lib/APS2.cpp:996-999 | data for flash is filled up with ones to whole units |
| ConfigMemory.PaddedSize | src/lib/APS2.cpp:267-277 | a file is filled up with 0xff, to whole units and no further |
| ConfigMemory.WriteWords | src/lib/APS2.cpp:857-873 | the command words of configuration writes |
| ConfigMemory.Storage.CheckPiece | src/lib/APS2.cpp:304-323 | compares a piece word by word |
| ConfigMemory.Storage.Validate | src/lib/APS2.cpp:285-327 | fails exactly if one of the words that are compared differs, whatever is stored |
| ConfigMemory.ComparesAll | src/lib/APS2.cpp:289-327 | when every word is compared, both directions |
| ConfigMemory.BytesWordsBytes | src/lib/APS2.cpp:267-276 | the byte swap keeps the file's byte order |
| ConfigMemory.Storage.WriteBitfile | src/lib/APS2.cpp:242-328 | fails only if unaligned; otherwise storage holds the file's bytes in order, padded with 0xff to 8 or 256 bytes |
| WaveformProgram.OrAdds | src/lib/APS2.cpp:703-748 | ORing fields into disjoint bits |
| WaveformProgram.Compile | src/lib/APS2.cpp:684-748 | errors exactly for unknown modes and for no waveforms; the inserted instructions in their places |
| WaveformProgram.LongWave | src/lib/APS2.cpp:727-748 | how a waveform word decodes, for every length that makes one |
| WaveformProgram.ShortWave | src/lib/APS2.cpp:727-748 | lengths of one to three samples make no waveform instruction |
| WaveformProgram.StaysInside | src/lib/constants.h:395-408 | no run leaves the program, whatever the lengths and however its words decode |
| WaveformProgram.PlaysIff | src/lib/APS2.cpp:684-755 | prologue with the frequency, then each non-empty engine once at full length, markers alongside in triggered mode, one dispatch, and back to the loop start: exactly for multiples of four up to 2^23 |
| WaveformProgram.Passes | src/lib/constants.h:395-408 | after any number of passes: the same pass that often |
| Board.PutAllChanges | src/lib/APS2.cpp:1955-1975 | the named bits change, and no others |
| Board.StoreChunks | src/lib/APS2.cpp:787-819 | a device with a cache cannot tell a split write from a flat one |
| Board.WaveformKept | src/lib/APS2.cpp:1990-2001 | every sample is found in the packed words |
| Board.PackWaveform | src/lib/APS2.cpp:1990-2001 | two samples a word, padded to 16 bytes |
| Board.HalvesAt | src/lib/APS2.cpp:2018-2023 | every instruction is found in the packed words |
| Board.PackSequence | src/lib/APS2.cpp:2018-2032 | low half first, padded to 16 bytes |
| Board.Aps2.SetRegisterBit | src/lib/APS2.cpp:1955-1964 | read, set the bits, write |
| Board.Aps2.ClearRegisterBit | src/lib/APS2.cpp:1966-1975 | read, clear the bits, write |
| Board.Aps2.Run | src/lib/APS2.cpp:652-666 | enables cache (APS host), sequencer and trigger; touches nothing else; the cache agrees with SDRAM |
| Board.Aps2.Stop | src/lib/APS2.cpp:668-680 | the reverse |
| Board.Aps2.WriteWaveform | src/lib/APS2.cpp:1977-2012 | the channel's region holds the waveform, the other regions what they held, the cache has loaded, SDRAM was not written behind it |
| Board.Aps2.WriteSequence | src/lib/APS2.cpp:2014-2052 | likewise on an APS host; on a TDM host just the write |
| Board.UnswitchedUpload | src/lib/APS2.cpp:2034-2051 | which, if the cache was on and agreed, leaves it in agreement exactly if what is cached of the upload already stood there |
| Board.OutOfStep | src/lib/APS2.cpp:1977-2052 | a waveform upload and then a sequence upload make the cache of any board on a TDM host disagree |
| Board.Aps2.SetRunMode | src/lib/APS2.cpp:684-755 | the program for the waveforms uploaded last stands in the sequence region and, on an APS host, in the cache |
| Board.CachePlays | src/lib/APS2.cpp:684-755 | run from the cache it plays both waveforms at full length, pass after pass |
| Board.LatestUpload | src/lib/APS2.cpp:1977-2052 | a region is left with what was uploaded to it last; for a run mode, the program for the waveforms that were loaded then |
| Board.Aps2.Perform | src/lib/APS2.cpp:652-755 | over any run of operations on an APS host: each region holds its latest upload, SDRAM is never written while the cache is enabled, an enabled cache agrees with SDRAM |
| SelfTest.StepBijective | src/lib/APS2.cpp:1806-1819 | for a fixed sample a step permutes the states |
| SelfTest.StepSample | src/lib/APS2.cpp:1806-1819 | and differs for different samples |
| SelfTest.CalcBist | src/lib/APS2.cpp:1794-1811 | the loop computes the signature |
| SelfTest.SignatureBits | src/lib/APS2.cpp:1794-1811 | bit by bit, what one more sample does to the signature |
| SelfTest.SplitPhases | src/lib/APS2.cpp:1813-1822 | odd and even samples |
| SelfTest.PhaseAt | src/lib/APS2.cpp:1813-1822 | the two phases are the samples at even and at odd positions |
| SelfTest.SingleErrorDetected | src/lib/APS2.cpp:1794-1811 | a single wrong sample gives a different signature |
| SelfTest.TestDetectsSingleError | src/lib/APS2.cpp:1794-1822 | and shows in the signature of its own clock phase only |

## Left out

- ArgParser.Workhorse: argv itself being null is not modelled.
- ParserRuns.Stats.Add: how argv is laid out after the count has reached the greatest int is only said to be a permutation.
- Glyphs.Decode: the source counts leading bits with a builtin that is undefined for the byte 0xFF; the model takes 0 there.
- LineWrapping.LineWrapper.Process: the spaces of an indentation are one event, not single writes.
- ColumnWidths.ChooseWidths: what printUsage does after the widths are known (tab stops, rows, last column on its own line) is not modelled.
- UdpLink.Link.Run: nothing times out and the queue gets no packet that answers nothing.
- TcpFraming.TcpStream.Read: every receive fills its buffer; the source does not look at how much was received.
- TcpLink.Link.Send: sends succeed and answers have arrived when a send returns; time limits and socket errors are not modelled.
- ConfigMemory.Storage.EraseFlash: no timeouts; the source leaves its retry loop after one attempt. For other regions than those of EraseCovers the loop does not do its work, and nothing is stated of the method.
- ConfigMemory.Storage.WriteBitfile: on flash the same regions; the padded file is smaller than 4 GB. Opening the file is not modelled, and bytes are swapped as on a little-endian host.
- PacketBytes.Parse: packets in whole words that hold the header, and the address if there is one; others make the source read outside its buffer.
- Board.Aps2.WriteWaveform: an even number of samples (channels hold multiples of four) that fits the region. SDRAM words never written read as 0.
- Board.Aps2.WriteSequence: the instruction cache preloads one line of 128 instructions; later prefetching is the sequencer's and is not modelled.
- SelfTest.SingleErrorDetected: samples of 14 signed bits, and errors that do not turn a sample into, or from, the values 0 and 1 that are skipped.
- The Numeric checker, error messages, colours and prompts.
- Sockets, broadcast enumeration, threads, sleeps and logging.
- Offsets, scales, mixer correction and frequencies in floating point.
- SPI messages, PLL tables, DAC alignment and FIFO phase.
- Bindings for other languages and the command-line tools.
