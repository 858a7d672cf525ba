# Verified models of U-Boot's loaders and boot bookkeeping

Dafny models of the parts of U-Boot 2014.04 where a loop over state must agree with a simple meaning: the
Kermit receiver and the S-Record dump and load commands, the EEPROM, flash and floppy commands, the log
buffer, the bootstage stash, device tree property values, the BedBug assembler and disassembler, memory
reservation before relocation, and the enumeration of storage devices.

Code that updates state is modelled by classes and methods with the loops of the original, each proved
against a specification function. What the code is for is proved about those functions: exactly-once
delivery, round trips, refinement of flat memory, exactness of plans. Where a claim holds only sometimes,
the exact condition is proved, with an input that shows the failure.

| file | models |
|---|---|
| Bytes, Bits, Wrappers | bytes, sums, powers of two, bitwise OR as arithmetic, optional values |
| KermitFrame, KermitText, KermitSession, KermitReplies, KermitDelivery, KermitPrefix, KermitLine, KermitReceiver, KermitTransfer | `k_recv` and its helpers |
| SRecord, SRecordTransfer, SRecordFile | `srec_decode`, `load_serial`, `save_serial` |
| Eeprom | `eeprom_read`, `eeprom_write` over I2C |
| LogBuffer | `logbuff_printk`, `log show` |
| Flash, FlashPlan, FlashProtect | `flash_fill_sect_ranges`, `flash_sect_roundb`, `addr_spec`, `flash_sect_protect`, `do_protect` for a range |
| Floppy | `fdc_read_data` |
| Bootstage, BootstageFormat | `bootstage_stash`, `bootstage_unstash` |
| Fdt, FdtNumbers, FdtRoundTrip | `fdt_parse_prop`, `print_data` |
| BedBug, NextAddress | `asmppc`, `print_operands`, `find_next_address` |
| Layout | the `reserve_*` sequence of board_f.c |
| Storage | `API_dev_enum` |

`dafny verify dfyconfig.toml` checks everything.

Conventions. `ulong` has 32 bits; wrap-around is written out (`% WORD`). A serial line is a finite sequence
of characters, and a reader that wants more is waiting. Memory is a map from addresses to bytes, or the
sequence being dumped. Devices are parameters that may fail at any call. Bitwise operations are read as
arithmetic on the number; `Bytes.MaskTests`, `Bytes.MaskUpdates` and the lemmas of `Bits` and `BedBug` justify this.

## Model

| member | source | states |
|---|---|---|
| KermitFrame.CheckIgnoresSign | u-boot-2014.04/common/cmd_load.c:555-563 | The block check depends on the character sum modulo 256 only, so `chk1` over signed or unsigned `char`s and the unsigned sum of `k_recv` always agree |
| KermitFrame.ReadFrame | u-boot-2014.04/common/cmd_load.c:836-927 | Reading a packet always consumes at least one character and never passes the end of the line; a sequence number is below 224 |
| KermitFrame.DataAccepted | u-boot-2014.04/common/cmd_load.c:902-918 | The data loop collects a field if and only if the announced number of characters is there and none is a control character |
| KermitFrame.BodyAccepted | u-boot-2014.04/common/cmd_load.c:870-927 | From the type on, a packet is accepted if and only if its characters form data, block check and END character |
| KermitFrame.FrameAccepted | u-boot-2014.04/common/cmd_load.c:836-927 | The receiver accepts, with number, type, data and end position, exactly the stretches of the line that are well-formed short or extended packets |
| KermitFrame.ShortPacketAccepted | u-boot-2014.04/common/cmd_load.c:836-927 | Every short packet built by the format is accepted with its contents |
| KermitFrame.LongPacketAccepted | u-boot-2014.04/common/cmd_load.c:878-927 | Every extended-length packet built by the format is accepted with its contents |
| KermitPrefix.FrameLocal | u-boot-2014.04/common/cmd_load.c:836-927 | What is read of a packet depends on its own characters only, wherever on the line they stand; if they do not decide, the receiver takes more |
| KermitPrefix.StarvedIsUnfinished | u-boot-2014.04/common/cmd_load.c:836-927 | The receiver waits inside a packet exactly as long as more characters can make a packet of what it has |
| KermitPrefix.RuinedRead | u-boot-2014.04/common/cmd_load.c:836-933 | Damage is noticed at the first character after which no packet can come of it: before the type as a header error, later as a packet rejected under its number, and nothing beyond is consumed |
| KermitPrefix.NotAcceptedIsRuined | u-boot-2014.04/common/cmd_load.c:836-933 | Conversely, whatever is on the line, the characters of a packet that is not accepted are damaged, and the last of them is the first to show it |
| KermitText.FeedAppend | u-boot-2014.04/common/cmd_load.c:662-677 | Unquoting is character by character: the escape state carries over any boundary |
| KermitText.QuoteFed | u-boot-2014.04/common/cmd_load.c:545-553 | Unquoting a quoted byte string gives the byte string, for every byte string |
| KermitText.QuotePrintable | u-boot-2014.04/common/cmd_load.c:902-910 | Quoted data holds no character that the receiver rejects |
| KermitText.QuoteCharacters | u-boot-2014.04/common/cmd_load.c:545-553 | Quoting is undone on all byte strings if and only if the quote character is one that `ktrans` leaves alone |
| KermitText.FeedAllConcat | u-boot-2014.04/common/cmd_load.c:662-677 | With one quote character, splitting the data into packets anywhere, even inside a quote pair, changes nothing |
| KermitText.SplitFileStored | u-boot-2014.04/common/cmd_load.c:662-677 | A quoted file cut into packets at any places is stored as the file |
| KermitSession.ReplyIsPacket | u-boot-2014.04/common/cmd_load.c:565-598 | Every reply, for every number and parameter count, is a packet by the rules of `k_recv` itself, behind its padding and before its end of line |
| KermitReplies.ParmsBack | u-boot-2014.04/common/cmd_load.c:679-722 | What a sender says of padding, end of line and quoting in a send-init packet is what the receiver uses, and the defaults stand for fields left out |
| KermitReplies.OfferMeans | u-boot-2014.04/common/cmd_load.c:700-756 | The answer to send-init, field by field: 94 characters, one second, no padding, CR, #, no 8th-bit or repeat prefixes, one-character check, long packets of 9024 |
| KermitReplies.OfferHonoured | u-boot-2014.04/common/cmd_load.c:700-927 | Packets of the offered lengths, ended as asked, are accepted |
| KermitReplies.Answered | u-boot-2014.04/common/cmd_load.c:836-944 | For every sequence of packets: one reply each, in order; an accepted packet is acknowledged, with the offer if it was a send-init, a damaged one is refused under its number or, if that is unknown, under the last one seen |
| KermitReplies.RunAnswered | u-boot-2014.04/common/cmd_load.c:806-945 | The same for every line on which a run ends, and nothing else is sent |
| KermitReplies.Interrupts | u-boot-2014.04/common/cmd_load.c:823-832 | ^C between packets ends the run |
| KermitSession.SessionIsFold | u-boot-2014.04/common/cmd_load.c:806-945 | A finished run is the fold of the packet step over the packets seen on the line |
| KermitSession.BreakEnds | u-boot-2014.04/common/cmd_load.c:934-945 | A line whose packets lead up to an accepted break packet ends the run, in the state that the fold gives |
| KermitSession.Entered | u-boot-2014.04/common/cmd_load.c:858-933 | What one packet does: a new number moves the checkpoint to the current text, anything else restarts from the checkpoint, and only accepted data adds to it |
| KermitSession.ClosedOrDropped | u-boot-2014.04/common/cmd_load.c:858-867 | A further packet either closes the last group and keeps its survivor, or reopens it and drops that survivor |
| KermitSession.Delivered | u-boot-2014.04/common/cmd_load.c:806-944 | For every run: stored is the unquoting of exactly those accepted data fields after which nothing of the same group comes, in order; the checkpoint is what the closed groups left |
| KermitDelivery.AttemptsAbsorbed | u-boot-2014.04/common/cmd_load.c:858-943 | Any number of damaged, repeated or whole copies of one message that ends with a whole copy acts like that copy alone |
| KermitDelivery.ExactlyOnce | u-boot-2014.04/common/cmd_load.c:772-946 | Over a whole exchange every data message is stored once, in order, however often it was sent |
| KermitDelivery.QuoteFixed | u-boot-2014.04/common/cmd_load.c:685-769 | A quote character negotiated once stays in force for the whole exchange |
| KermitDelivery.FileReceived | u-boot-2014.04/common/cmd_load.c:772-946 | A quoted file, cut into data messages anywhere, arrives as the file |
| KermitLine.CopySeen | u-boot-2014.04/common/cmd_load.c:823-933 | A copy of a message, short or extended, whole, damaged after its number or damaged in its header, is seen as one packet that ends with the character that decides, which may itself be a START or ^C; the receiver then waits for what follows |
| KermitLine.LineSeen | u-boot-2014.04/common/cmd_load.c:806-945 | Every copy on a line, of short and extended packets and with noise after each, is seen as one packet, in order, up to the break |
| KermitLine.LineIsExchange | u-boot-2014.04/common/cmd_load.c:806-945 | What is seen of a sender that repeats every message until a whole copy gets through is an exchange: the hypothesis of exactly-once delivery follows from the line |
| KermitLine.LateHeaderErrorLosesData | u-boot-2014.04/common/cmd_load.c:839-933 | Without the closing copy the claim is false: on this line a data packet is received and acknowledged, a damaged header follows, and the run ends without the data |
| KermitLine.CleanLine | u-boot-2014.04/common/cmd_load.c:823-943 | What a sender puts on an undisturbed line, in short or extended packets, is seen as one accepted packet for each message |
| KermitTransfer.ReceiveExchange | u-boot-2014.04/common/cmd_load.c:772-946 | From packets to memory: if the packets on the line are attempts at any messages that end in a break, memory from `bin_start_address` on holds their data, each once and in order, and its length is returned |
| KermitTransfer.ReceiveLine | u-boot-2014.04/common/cmd_load.c:772-946 | From characters to memory: the same for every line that carries the copies of such messages, short or extended, whole or damaged anywhere but in the number, with noise between them |
| KermitTransfer.ReceiveFile | u-boot-2014.04/common/cmd_load.c:772-946 | If the messages are a quoted file cut anywhere, the receiver ends with the file from `bin_start_address` on and returns its length |
| KermitReceiver.Receiver.KDataInit | u-boot-2014.04/common/cmd_load.c:644-648 | Empty text, checkpoint at the start address |
| KermitReceiver.Receiver.KDataSave | u-boot-2014.04/common/cmd_load.c:650-654 | The checkpoint becomes the current text and address |
| KermitReceiver.Receiver.KDataRestore | u-boot-2014.04/common/cmd_load.c:656-660 | The text and address go back to the checkpoint; memory is left alone |
| KermitReceiver.Receiver.BinDataChar | u-boot-2014.04/common/cmd_load.c:625-632 | One byte is stored at the write address and nowhere else, at or above the checkpoint |
| KermitReceiver.Receiver.KDataChar | u-boot-2014.04/common/cmd_load.c:662-677 | One character acts on text and memory as the unquoting step says |
| KermitReceiver.Receiver.Chk1 | u-boot-2014.04/common/cmd_load.c:555-563 | The check of a NUL-terminated stretch of the reply buffer, with either signedness of `char` |
| KermitReceiver.Receiver.S1SendPacket | u-boot-2014.04/common/cmd_load.c:565-571 | Padding, then the buffer up to its NUL, is what goes out |
| KermitReceiver.Receiver.SealPacket | u-boot-2014.04/common/cmd_load.c:574-585 | The reply buffer holds START, length, number, type, data and the right check, and no write leaves the buffer |
| KermitReceiver.Receiver.SendReply | u-boot-2014.04/common/cmd_load.c:574-598 | What is sent is the reply packet of the packet format |
| KermitReceiver.Receiver.HandleSendPacket | u-boot-2014.04/common/cmd_load.c:685-769 | For every number of parameters: the sender's values are taken over, and the answer offers this receiver's, truncated to as many as were sent |
| KermitReceiver.Receiver.SendAck | u-boot-2014.04/common/cmd_load.c:574-585 | An acknowledge packet with the given number goes out |
| KermitReceiver.Receiver.SendNack | u-boot-2014.04/common/cmd_load.c:587-598 | A negative acknowledge packet with the given number goes out |
| KermitReceiver.Receiver.SaveParm | u-boot-2014.04/common/cmd_load.c:911-916 | Parameters are kept in order; excess ones reuse the last slot and never pass the buffer |
| KermitReceiver.Receiver.TakeChar | u-boot-2014.04/common/cmd_load.c:902-918 | One data character goes to the text, to the parameters or nowhere, by packet type |
| KermitReceiver.Receiver.BringInData | u-boot-2014.04/common/cmd_load.c:901-918 | The data loop agrees with the packet reader, for every line |
| KermitReceiver.Receiver.ExtendedLength | u-boot-2014.04/common/cmd_load.c:877-900 | The extended length and its header check agree with the packet reader |
| KermitReceiver.Receiver.BlockCheck | u-boot-2014.04/common/cmd_load.c:919-927 | The final check and END character agree with the packet reader |
| KermitReceiver.Receiver.Body | u-boot-2014.04/common/cmd_load.c:870-927 | The packet after its number is consumed as the packet reader says, and its data reached the text or the parameters |
| KermitReceiver.Receiver.CheckNumber | u-boot-2014.04/common/cmd_load.c:858-867 | A repeated number restores the checkpoint, a new one makes it |
| KermitReceiver.Receiver.PacketError | u-boot-2014.04/common/cmd_load.c:928-933 | The checkpoint is restored and a negative acknowledge goes out |
| KermitReceiver.Receiver.Acknowledge | u-boot-2014.04/common/cmd_load.c:934-943 | The right answer goes out and a break ends the loop |
| KermitReceiver.Receiver.TakePacket | u-boot-2014.04/common/cmd_load.c:869-943 | A packet whose number has been entered is taken in and answered as the packet step says |
| KermitReceiver.Receiver.NumberedPacket | u-boot-2014.04/common/cmd_load.c:858-943 | A packet with known number changes the station as the packet step says |
| KermitReceiver.Receiver.Header | u-boot-2014.04/common/cmd_load.c:837-849 | Length and number agree with the packet reader, header errors included |
| KermitReceiver.Receiver.ReceivePacket | u-boot-2014.04/common/cmd_load.c:835-943 | So does any packet, header errors included |
| KermitReceiver.Receiver.AwaitStart | u-boot-2014.04/common/cmd_load.c:825-834 | Characters before START are skipped; ^C interrupts |
| KermitReceiver.Receiver.Begin | u-boot-2014.04/common/cmd_load.c:782-795 | Protocol defaults and the first checkpoint |
| KermitReceiver.Receiver.Round | u-boot-2014.04/common/cmd_load.c:806-944 | One turn of the main loop agrees with the session specification |
| KermitReceiver.Receiver.KRecv | u-boot-2014.04/common/cmd_load.c:772-946 | For every character stream: the outcome, the memory from the start address, the replies sent and the returned size are those of the session; over the whole run the checkpoint never passes the write address, never decreases, and no byte below it is written again; bytes the download never reached stay |
| SRecord.HexBytesText | u-boot-2014.04/common/s_record.c:156-179 | Hexadecimal text reads back as its bytes |
| SRecord.DecodeInSteps | u-boot-2014.04/common/s_record.c:86-153 | Reading address, data and checksum one after the other with a running sum decides exactly as: all bytes are there and sum to 0xFF |
| SRecord.ReadField | u-boot-2014.04/common/s_record.c:86-132 | An address field of any length: value, running checksum, or the first bad digit |
| SRecord.ReadData | u-boot-2014.04/common/s_record.c:134-142 | The data loop: bytes into the buffer, running checksum, or the first bad digit |
| SRecord.SrecDecode | u-boot-2014.04/common/s_record.c:14-154 | For every line: return code, count, address and data are those of the record format, and the data fits its buffer |
| SRecordTransfer.RecordSum | u-boot-2014.04/common/cmd_load.c:339-350 | All bytes of a dumped record, checksum included, sum to 0xFF modulo 256 |
| SRecordTransfer.RecordDecodes | u-boot-2014.04/common/cmd_load.c:308-311 | A dumped record decodes to its address and data and fits the record buffer with newline and NUL |
| SRecordTransfer.RecordListDumped | u-boot-2014.04/common/cmd_load.c:325-362 | Every data record of a dump carries 1 to 16 bytes |
| SRecordTransfer.RecordListData | u-boot-2014.04/common/cmd_load.c:325-362 | Together the records of a dump hold the region |
| SRecordTransfer.RecordListTiles | u-boot-2014.04/common/cmd_load.c:325-362 | Each record starts where the one before ended, in 32-bit addresses |
| SRecordTransfer.StartRecord | u-boot-2014.04/common/cmd_load.c:308 | The header is an empty start record |
| SRecordTransfer.EndRecord | u-boot-2014.04/common/cmd_load.c:310 | The trailer is an end record for address 0 |
| SRecordTransfer.NextLine | u-boot-2014.04/common/cmd_load.c:200-235 | A line of printable text is cut at its newline, whatever follows |
| SRecordTransfer.StoreAt | u-boot-2014.04/common/cmd_load.c:165 | A stored block sets exactly its own bytes, also past the end of the 32-bit address space |
| SRecordTransfer.LoadRecords | u-boot-2014.04/common/cmd_load.c:148-190 | The records of a dump are taken one after the other, with any offset, until one is refused; after each, first and last are the lowest start and the highest end so far, in closed form |
| SRecordTransfer.LoadDump | u-boot-2014.04/common/cmd_load.c:141-190 | Loading the text of a dump is loading its records |
| SRecordTransfer.RoundTrip | u-boot-2014.04/common/cmd_load.c:128-198 | For every address, offset and region, wrapping ones included: if every record is stored, loading a dump stores the region at its address plus the offset and reports what `Told` says; if a record is refused, the load is aborted |
| SRecordTransfer.ToldExact | u-boot-2014.04/common/cmd_load.c:166-178 | The bytes are always those of the region; first, last and size are the true ones if and only if the region does not pass the end of the address space or fits one record |
| SRecordTransfer.PassingTheEnd | u-boot-2014.04/common/cmd_load.c:166-170 | What is reported otherwise: the first address behind the wrap, or the last one before it |
| SRecordTransfer.ReadRecord | u-boot-2014.04/common/cmd_load.c:200-235 | One line: up to a line end, cut at the buffer size, or cancelled |
| SRecordTransfer.TakeLine | u-boot-2014.04/common/cmd_load.c:142-190 | One record changes memory and bounds as the specification says, or aborts the load if it is bad or flash refuses it |
| SRecordTransfer.LoadSerial | u-boot-2014.04/common/cmd_load.c:128-198 | For every input, and any flash that may refuse a write, the loader gives the specified result |
| SRecordTransfer.AddBytes | u-boot-2014.04/common/cmd_load.c:341-347 | The byte sum of a number, low byte first |
| SRecordTransfer.FormatRecord | u-boot-2014.04/common/cmd_load.c:338-353 | The formatted record is the record text of its address and data |
| SRecordTransfer.Collect | u-boot-2014.04/common/cmd_load.c:326-334 | One more byte in the hexadecimal buffer and in the sum; a record never outgrows its buffer |
| SRecordTransfer.SaveRecords | u-boot-2014.04/common/cmd_load.c:313-362 | Header and data records, for every region |
| SRecordTransfer.SaveSerial | u-boot-2014.04/common/cmd_load.c:313-366 | The text sent is the dump of the region |
| SRecordTransfer.DumpAndLoad | u-boot-2014.04/common/cmd_load.c:128-366 | The two commands one after the other: the region arrives at address + d; first, last and size are the true ones if and only if it does not pass the end of the address space there or fits one record; the load is aborted if and only if a record is refused |
| SRecordTransfer.RegionLoaded | u-boot-2014.04/common/cmd_load.c:152-170 | Exactly the bytes of the region arrive at their places, in 32-bit addresses, and every other byte stays |
| SRecordFile.SpelledBytes | u-boot-2014.04/common/s_record.c:156-179 | Bytes are read exactly where they are spelled, in digits of either case |
| SRecordFile.LineDecodes | u-boot-2014.04/common/s_record.c:14-154 | A line with a record of any type, 2, 3 or 4 address bytes by type, decodes to it if and only if its bytes sum to 0xFF; text before the S and behind the checksum does not matter |
| SRecordFile.LongLineCut | u-boot-2014.04/common/cmd_load.c:200-235 | A line without an end is cut after SREC_MAXRECLEN characters |
| SRecordFile.LinesTaken | u-boot-2014.04/common/cmd_load.c:141-190 | The lines of any file, ended by CR or LF, are taken one after the other, whatever follows |
| SRecordFile.FileLoaded | u-boot-2014.04/common/cmd_load.c:141-185 | Any file that ends in an end record of type 7, 8 or 9: the load returns the address in that record |
| SRecordFile.FileRefused | u-boot-2014.04/common/cmd_load.c:153-163 | A data record that flash refuses ends the load with an error |
| SRecordFile.FileDamaged | u-boot-2014.04/common/cmd_load.c:143-147 | So does a record whose bytes do not sum to 0xFF |
| SRecordFile.FileCancelled | u-boot-2014.04/common/cmd_load.c:212-218 | So does ^C or a NUL inside a line |
| SRecordFile.FileInMemory | u-boot-2014.04/common/cmd_load.c:152-165 | Memory after a load, byte by byte: the last data record that has a byte for the address, or what was there |
| SRecordFile.FileBounds | u-boot-2014.04/common/cmd_load.c:166-170 | First and last are the lowest start and the highest end of a data record, in any order of records |
| Eeprom.SelectedChip | u-boot-2014.04/common/cmd_eeprom.c:125-144 | The select bytes name the chip and the cell of an offset |
| Eeprom.CellsDistinct | u-boot-2014.04/common/cmd_eeprom.c:125-144 | Different offsets in range are different cells |
| Eeprom.PlanTiles | u-boot-2014.04/common/cmd_eeprom.c:119-169 | Transfers are non-empty and tile the range in order |
| Eeprom.PlanWithinUnit | u-boot-2014.04/common/cmd_eeprom.c:241-255 | With at most 256 bytes in a page, every write stays in one page and every read in one 256-byte block |
| Eeprom.PlanFull | u-boot-2014.04/common/cmd_eeprom.c:146-159 | No transfer could be longer: it reaches the end of the range or of its page or block, or has 128 bytes |
| Eeprom.PageBitsLimit | u-boot-2014.04/common/cmd_eeprom.c:243-255 | Writes stay within pages for all ranges if and only if CONFIG_SYS_EEPROM_PAGE_WRITE_BITS is at most 8 |
| Eeprom.LargePageCrossed | u-boot-2014.04/common/cmd_eeprom.c:243-255 | With larger pages, two bytes across a page boundary go out in one transfer |
| Eeprom.ChipWriteIsFlat | u-boot-2014.04/common/cmd_eeprom.c:200-255 | A write inside a page of a chip whose address counter wraps in the page is a flat write |
| Eeprom.ChipReadIsFlat | u-boot-2014.04/common/cmd_eeprom.c:115-159 | A read inside a block is a flat read |
| Eeprom.FlatWriteAt | u-boot-2014.04/common/cmd_eeprom.c:183-357 | A flat write changes exactly its range |
| Eeprom.FlatReadWritten | u-boot-2014.04/common/cmd_eeprom.c:109-357 | Reading back what was written |
| Eeprom.Bus.TransferLength | u-boot-2014.04/common/cmd_eeprom.c:146-159 | The length of the next transfer, for reads and writes |
| Eeprom.Bus.WriteTransfer | u-boot-2014.04/common/cmd_eeprom.c:205-347 | One transfer is a flat write, or fails and stays in its range; it fails exactly if the bus does |
| Eeprom.Bus.ReadTransfer | u-boot-2014.04/common/cmd_eeprom.c:119-168 | One transfer is a flat read, or fails, exactly if the bus does |
| Eeprom.Bus.WriteStep | u-boot-2014.04/common/cmd_eeprom.c:205-347 | One turn of the loop makes the next planned transfer, keeps what is known of the cells, and sets the return code exactly if the transfer fails |
| Eeprom.Bus.WriteLoop | u-boot-2014.04/common/cmd_eeprom.c:205-357 | The loop sends the planned transfers and returns 0 if and only if all of them work; memory is then the flat write, and no byte outside the range ever changes |
| Eeprom.Bus.ReadLoop | u-boot-2014.04/common/cmd_eeprom.c:119-172 | The loop sends the planned transfers and returns 0 if and only if all of them work; the buffer is then the flat read |
| Eeprom.Bus.Write | u-boot-2014.04/common/cmd_eeprom.c:183-357 | The write command on 32-bit offsets: 0 if and only if every transfer it makes works; a range that wraps writes nothing and reports no error |
| Eeprom.Bus.Read | u-boot-2014.04/common/cmd_eeprom.c:109-172 | The read command on 32-bit offsets, with the same condition |
| Eeprom.Bus.WriteAndReadBack | u-boot-2014.04/common/cmd_eeprom.c:109-357 | A write followed by a read of the range: both report success if and only if all their transfers work, and what is read is then what was written |
| LogBuffer.Ring.Reset | u-boot-2014.04/common/cmd_log.c:103-125 | Both representations start empty |
| LogBuffer.Ring.Append | u-boot-2014.04/common/cmd_log.c:283-297 | One character more is logged, in either representation, through index wrap |
| LogBuffer.Ring.Show | u-boot-2014.04/common/cmd_log.c:199-213 | Either representation shows exactly the last min(n, LOGBUFF_LEN) characters logged |
| LogBuffer.RenderStretch | u-boot-2014.04/common/cmd_log.c:263-308 | A stretch without newline is logged as it is after at most one prefix |
| LogBuffer.TwoCalls | u-boot-2014.04/common/cmd_log.c:253-310 | Logging in two calls equals logging in one if and only if the boundary does not cut a tag |
| LogBuffer.LineLogged | u-boot-2014.04/common/cmd_log.c:265-280 | A line that brings a level from 0 to 7 is logged as it is, any other behind level 4 |
| LogBuffer.EveryLineHasLevel | u-boot-2014.04/common/cmd_log.c:253-310 | Every line in the log starts with a level, whatever is logged |
| LogBuffer.Logger.CopyIn | u-boot-2014.04/common/cmd_log.c:260-262 | The text sits three characters into the buffer |
| LogBuffer.Logger.OpenLine | u-boot-2014.04/common/cmd_log.c:265-280 | A line start without a tag gets its prefix in the three characters before it |
| LogBuffer.Logger.LogLine | u-boot-2014.04/common/cmd_log.c:281-302 | The characters up to and including a newline are logged |
| LogBuffer.Logger.Turn | u-boot-2014.04/common/cmd_log.c:263-308 | One turn logs one stretch, and stepping back for the prefix never overwrites a character not yet logged |
| LogBuffer.Logger.Printk | u-boot-2014.04/common/cmd_log.c:253-310 | Over any sequence of calls the logged stream grows by each text with its line prefixes |
| Flash.ScanBank | u-boot-2014.04/common/cmd_flash.c:219-239 | The sector that starts and the sector that ends the range, if the bank has them |
| Flash.RunIsInside | u-boot-2014.04/common/cmd_flash.c:240-259 | The run between them is exactly the sectors inside the range |
| Flash.CloseRun | u-boot-2014.04/common/cmd_flash.c:240-259 | A run ends in the bank at a sector end or goes on to its last sector; failure means that the range ends inside a sector |
| Flash.PlanBank | u-boot-2014.04/common/cmd_flash.c:208-270 | The outcome of one bank: a run and where the scan goes on, nothing, or an error |
| FlashPlan.BankPlanned | u-boot-2014.04/common/cmd_flash.c:208-270 | What is done with a bank is right: the plan so far stays exact, or the range cannot be planned |
| FlashPlan.FillSectRanges | u-boot-2014.04/common/cmd_flash.c:192-273 | For banks that do not overlap, in any order and with any gaps: a plan with a non-zero count is made if and only if the range starts at a sector start and ends at a sector end that the run of banks from there reaches, or past that run at an address that ends no sector; it holds and counts exactly the sectors inside the range up to the end of that run and, if the range ends with the address space, those of the run of later banks from address 0 on |
| FlashPlan.MissedSector | u-boot-2014.04/common/cmd_flash.c:207-270 | A sector inside the range is left out of a plan if and only if it lies behind the end of the run of banks |
| FlashPlan.GapLeavesOut | u-boot-2014.04/common/cmd_flash.c:207-270 | Such plans are made, without an error |
| FlashPlan.TopTakesBankAtZero | u-boot-2014.04/common/cmd_flash.c:256-257 | A range up to the last address of all that takes a bank outside it |
| FlashPlan.OnlyBehindTheTop | u-boot-2014.04/common/cmd_flash.c:256-257 | Sectors outside the range are taken only if it ends with the last address of all, and only in banks listed behind the one that has that address |
| FlashPlan.GaplessPlan | u-boot-2014.04/README:5873-5876 | For banks that follow each other without gaps a plan is made if and only if the range starts at a sector start and ends at a sector end or past the last bank, and it misses and adds nothing |
| FlashProtect.SectRoundb | u-boot-2014.04/common/cmd_flash.c:96-132 | An address is moved to the end of its sector; failure means it is in no sector |
| FlashProtect.LeastCover | u-boot-2014.04/common/cmd_flash.c:171-187 | From a sector start on, the rounded range holds exactly the sectors that meet the request |
| FlashProtect.RoundedPlan | u-boot-2014.04/common/cmd_flash.c:171-187 | The rounded range can be planned if and only if the run of banks reaches the last address asked for |
| FlashProtect.AddrSpec | u-boot-2014.04/common/cmd_flash.c:151-190 | The end of a `start +len` range is the end of the sector that holds its last byte |
| FlashProtect.FlashArray.ProtectRun | u-boot-2014.04/common/cmd_flash.c:642-651 | One run of flags is set |
| FlashProtect.FlashArray.ProtectPlan | u-boot-2014.04/common/cmd_flash.c:632-653 | Exactly the flags of the chosen sectors are set, and counted |
| FlashProtect.FlashArray.SectProtect | u-boot-2014.04/common/cmd_flash.c:619-666 | Exactly the flags of the sectors that are taken for a range which can be planned are set and counted, wrapping ranges included; otherwise no flag changes |
| FlashProtect.FlashArray.ProtectLength | u-boot-2014.04/common/cmd_flash.c:604-613 | `protect start +len` succeeds if and only if the start is a sector start, the run of banks reaches the last address asked for and the range is longer than one address; it sets exactly the flags of the sectors that meet [start, start + len - 1] and those that a wrap takes in addition |
| Floppy.ChsInverse | u-boot-2014.04/common/cmd_fdc.c:249-257 | Track, head and sector invert to the block number and lie inside the geometry |
| Floppy.ChsStep | u-boot-2014.04/common/cmd_fdc.c:249-257 | Blocks to the end of a track side are consecutive sectors |
| Floppy.StreamIsBlocks | u-boot-2014.04/common/cmd_fdc.c:443-494 | What the controller delivers on one track side is what the blocks hold |
| Floppy.ReadsRight | u-boot-2014.04/common/cmd_fdc.c:258-269 | Every disk is read as it is if and only if the request ends on one of the first 256 tracks, because the command holds one byte for the track |
| Floppy.TrackWraps | u-boot-2014.04/common/cmd_fdc.c:258-269 | The first block behind track 255 is read from track 0 |
| Floppy.NextSide | u-boot-2014.04/common/cmd_fdc.c:495-508 | After a full track side the next one starts |
| Floppy.CopyFifo | u-boot-2014.04/common/cmd_fdc.c:453-460 | The data phase fills its part of the buffer and nothing else |
| Floppy.Drive.Issue | u-boot-2014.04/common/cmd_fdc.c:321-339 | A command counts as issued exactly if the controller accepts it |
| Floppy.Drive.DataPhase | u-boot-2014.04/common/cmd_fdc.c:443-494 | A READ succeeds if and only if the controller does not break off before its last byte; it then delivers its blocks, staying on one track side and in its part of the buffer |
| Floppy.Drive.FirstReach | u-boot-2014.04/common/cmd_fdc.c:434-440 | The first READ ends at the track side or with the request |
| Floppy.Drive.AfterFailure | u-boot-2014.04/common/cmd_fdc.c:468-490 | The two retry counters count failed READs, five in each of five rounds: the read goes on if and only if fewer than 25 have failed and recalibration and seek are accepted |
| Floppy.Drive.ReadSides | u-boot-2014.04/common/cmd_fdc.c:442-508 | The loop over track sides: for every pattern of failing READs the buffer holds the blocks that the commands ask for, and the loop succeeds if and only if all commands are accepted and fewer than 25 READs break off |
| Floppy.Drive.ReadData | u-boot-2014.04/common/cmd_fdc.c:406-527 | The read succeeds if and only if every command it issues is accepted and fewer than 25 of its READs break off, so always on a drive without faults; the buffer then holds the blocks asked for, if the request ends on one of the first 256 tracks, and what the truncated commands ask for otherwise |
| Bootstage.GeneratedNameFits | u-boot-2014.04/common/bootstage.c:161-172 | A generated name fits its buffer with its NUL |
| Bootstage.NamesRead | u-boot-2014.04/common/bootstage.c:443-450 | The name table reads back as the names |
| Bootstage.BodyRead | u-boot-2014.04/common/bootstage.c:437-450 | Records and names of an image read back |
| Bootstage.RoundTrip | u-boot-2014.04/common/bootstage.c:334-457 | Unstashing a stash appends exactly its records, in order, under their printable names, and advances `next_id` by their number |
| Bootstage.FailedStashRejected | u-boot-2014.04/common/bootstage.c:362-389 | A stash that ran out of space after its header, with at least one record, is always rejected |
| Bootstage.AppendData | u-boot-2014.04/common/bootstage.c:323-332 | Data is copied only if it ends in the buffer; the position always advances |
| Bootstage.NameList | u-boot-2014.04/common/bootstage.c:443-450 | The loop over the names agrees with the reader |
| Bootstage.Stage.AddRecord | u-boot-2014.04/common/bootstage.c:61-84 | Only the first event of a stage is recorded; allocated ids advance `next_id`; out of range ids change nothing; the time is returned in any case |
| Bootstage.Stage.CountLive | u-boot-2014.04/common/bootstage.c:351-357 | The number of records with a non-zero time |
| Bootstage.Stage.StashRecords | u-boot-2014.04/common/bootstage.c:362-366 | The records go out in table order |
| Bootstage.Stage.StashNames | u-boot-2014.04/common/bootstage.c:368-376 | Then their printable names |
| Bootstage.Stage.Stash | u-boot-2014.04/common/bootstage.c:334-389 | Success if and only if header, records and names fit, then with exactly the image; a failure past the header check leaves a header with size 0 |
| Bootstage.Stage.UnstashFrom | u-boot-2014.04/common/bootstage.c:391-457 | The table and `next_id` change as the reader says, or not at all; the end of the data is compared as a 32-bit address |
| Bootstage.CarryOver | u-boot-2014.04/common/bootstage.c:334-457 | Stash and unstash one after the other: success exactly if the image fits, then exactly the live records arrive, in order and by printable name, and every other entry stays; a stash that did not fit is rejected and changes nothing |
| Bootstage.LoadImage | u-boot-2014.04/common/bootstage.c:391-457 | Unstashing an image changes exactly the entries after `next_id`, to the records of the image |
| Bootstage.LoadFailed | u-boot-2014.04/common/bootstage.c:391-457 | What a failed stash left is rejected and changes nothing |
| BootstageFormat.NameMeans | u-boot-2014.04/common/bootstage.c:161-172 | A record without a name is shown as `user_` or `id=` and its number in decimal |
| BootstageFormat.DecimalMeans | u-boot-2014.04/common/bootstage.c:161-172 | The digits stand for the number, without leading zeros |
| BootstageFormat.LivePlace | u-boot-2014.04/common/bootstage.c:362-366 | Every record whose time is set is in the stash, in table order |
| BootstageFormat.LiveFrom | u-boot-2014.04/common/bootstage.c:362-366 | There are no others |
| BootstageFormat.Layout | u-boot-2014.04/common/bootstage.c:334-389 | The words of header and records and the names of a stash, by address |
| BootstageFormat.Refused | u-boot-2014.04/common/bootstage.c:391-434 | Memory is refused if and only if its header lacks magic or version, or announces what the limit, its size or the table does not allow |
| Fdt.SimpleStrtoul | u-boot-2014.04/lib/vsprintf.c:42-72 | Prefix, base and digits, in 32-bit arithmetic, as specified; what numerals mean is `FdtNumbers.NumeralRead` |
| Fdt.ScanHex | u-boot-2014.04/lib/vsprintf.c:62-66 | Scanning printed digits brings the number back |
| Fdt.ParseCells | u-boot-2014.04/common/cmd_fdt.c:673-706 | The cell loop agrees with the specification, reading past the last argument included |
| Fdt.ParseBytes | u-boot-2014.04/common/cmd_fdt.c:707-728 | So does the byte loop |
| Fdt.ParseProp | u-boot-2014.04/common/cmd_fdt.c:663-744 | The parser, in all three forms, as specified; what lists of numbers give is `FdtNumbers.ListParsed` |
| Fdt.CellsParsed | u-boot-2014.04/common/cmd_fdt.c:673-706 | Printed cells, cut into arguments at any of their blanks, parse to their bytes |
| Fdt.BytesParsed | u-boot-2014.04/common/cmd_fdt.c:707-728 | So do printed bytes |
| FdtNumbers.NumeralRead | u-boot-2014.04/lib/vsprintf.c:42-72 | A decimal numeral, an octal one after 0 or a hexadecimal one after 0x, in digits of either case, is read to its end and as what it means, modulo 32 bits |
| FdtNumbers.HexadecimalRead | u-boot-2014.04/lib/vsprintf.c:42-72 | In base 16, digits are hexadecimal without a prefix too |
| FdtNumbers.NumberRead | u-boot-2014.04/lib/vsprintf.c:42-72 | Every 32-bit number comes back from its decimal, octal and hexadecimal text |
| FdtNumbers.ListParsed | u-boot-2014.04/common/cmd_fdt.c:673-728 | A list of such numbers, with any blanks and cut into arguments between them, gives its cells or bytes; a character that starts no number is an error, and without the bracket the arguments run out |
| FdtRoundTrip.IsPrintableString | u-boot-2014.04/common/cmd_fdt.c:752-787 | Printable means: not empty, only printable characters and single NULs, and a NUL at the end, or a newline with a NUL behind the value |
| FdtRoundTrip.TextIff | u-boot-2014.04/common/cmd_fdt.c:752-787 | A value is taken for text if and only if it ends in NUL, or in a newline with a NUL behind it, has only printable characters, and has no empty string but perhaps the first |
| FdtRoundTrip.PrintableClasses | u-boot-2014.04/lib/ctype.c:16-40 | The printable characters, by the classes of the table |
| FdtRoundTrip.PrintItems | u-boot-2014.04/common/cmd_fdt.c:820-843 | Items with one blank between them, in brackets |
| FdtRoundTrip.PrintStrings | u-boot-2014.04/common/cmd_fdt.c:806-818 | The strings of a value, one by one |
| FdtRoundTrip.PrintData | u-boot-2014.04/common/cmd_fdt.c:795-844 | The printer chooses nothing, strings, cells, bytes or only address and length |
| FdtRoundTrip.PrintedAs | u-boot-2014.04/common/cmd_fdt.c:795-844 | Which output is chosen, and the list character by character: words in angle brackets if the length is a multiple of 4, bytes in square ones otherwise |
| FdtRoundTrip.ListParsed | u-boot-2014.04/common/cmd_fdt.c:663-844 | A bracketed list, however it is cut into arguments, parses to the value it shows |
| FdtRoundTrip.StringsBack | u-boot-2014.04/common/cmd_fdt.c:729-742 | The strings of a value parse to the value, closed by a NUL |
| FdtRoundTrip.BracketLost | u-boot-2014.04/common/cmd_fdt.c:673-728 | A text that starts with a bracket is taken for a list and never comes back |
| FdtRoundTrip.PrintParse | u-boot-2014.04/common/cmd_fdt.c:663-844 | For every value that is shown: parsing gives back the same bytes if and only if it is not a text, or a text that ends in NUL and does not start with a bracket; a text ending in a newline comes back with a NUL more |
| BedBug.ExtractBits | u-boot-2014.04/common/bedbug.c:387-398 | A field is read from its own bits only |
| BedBug.AddressBack | u-boot-2014.04/common/bedbug.c:262-275 | An address comes back if and only if it is word aligned and its distance is in [-2^(bits+1), 2^(bits+1)) |
| BedBug.ParseOperand | u-boot-2014.04/common/bedbug.c:855-919 | The field of one operand, or the error |
| BedBug.Asmppc | u-boot-2014.04/common/bedbug.c:796-842 | The operand loop: silent operands take no word, missing ones are an error |
| BedBug.MatchesOpcode | u-boot-2014.04/common/bedbug.c:796-829 | The assembled word still matches its opcode |
| BedBug.SilentKept | u-boot-2014.04/common/bedbug.c:803-813 | Silent fields keep what the opcode says |
| BedBug.FieldPacked | u-boot-2014.04/common/bedbug.c:796-829 | Every spoken field of the assembled word holds what was encoded for it |
| BedBug.Packed | u-boot-2014.04/common/bedbug.c:796-842 | The three together, for any opcode whose spoken fields overlap neither each other nor its mask |
| BedBug.Assembles | u-boot-2014.04/common/bedbug.c:796-919 | An instruction is assembled if and only if every spoken operand is there and of a kind its field takes; otherwise the first one that is not is the error |
| BedBug.FieldMeans | u-boot-2014.04/common/bedbug.c:855-919 | An address field leads to the address given, from the instruction on if the opcode is relative and from 0 on otherwise; any other field holds its number |
| BedBug.ShowOperand | u-boot-2014.04/common/bedbug.c:262-275 | The value shown for one operand |
| BedBug.PrintOperands | u-boot-2014.04/common/bedbug.c:232-349 | The operands shown, in order, without the silent ones |
| BedBug.GetOperandValue | u-boot-2014.04/common/bedbug.c:374-401 | The value of the first field with the id, if there is one |
| BedBug.DisassembleAssembled | u-boot-2014.04/common/bedbug.c:232-842 | Disassembling an assembled instruction shows the operands it was given if and only if each fits its field |
| BedBug.AssembleAndShow | u-boot-2014.04/common/bedbug.c:232-842 | The two commands one after the other: the word matches its opcode, and the operands shown are those given if and only if each fits its field |
| NextAddress.Displacement | u-boot-2014.04/common/bedbug.c:1105-1125 | The extracted and extended displacement is the architected one |
| NextAddress.Conditions | u-boot-2014.04/common/bedbug.c:1161-1215 | The case analysis on BO is CTR and CR conditions of the architecture, for every BO with clear `z` bits, and false for the others |
| NextAddress.Operands | u-boot-2014.04/common/bedbug.c:1094-1159 | Where a branch goes |
| NextAddress.FindNextAddress | u-boot-2014.04/common/bedbug.c:1054-1237 | Stepping gives the architected next instruction if and only if a taken branch has clear `z` bits and an aligned target or goes to the next instruction anyway; stepping over differs for taken linking branches only, where it gives pc + 4 |
| NextAddress.ZBitMissed | u-boot-2014.04/common/bedbug.c:1162-1214 | A branch that is always taken and is missed because an ignored bit is set |
| Layout.LayoutSound | u-boot-2014.04/common/board_f.c:364-613 | For every list of steps that fits: regions lie in RAM, are aligned as asked, and are pairwise disjoint |
| Layout.FitsMeans | u-boot-2014.04/common/board_f.c:405-613 | A layout fits exactly if no subtraction of the sequence goes below zero |
| Layout.OptionsSound | u-boot-2014.04/common/board_f.c:364-613 | The same for every combination of options |
| Layout.BootPageFree | u-boot-2014.04/common/board_f.c:387-397 | No region reaches into the boot page of the other cores or above RAM |
| Layout.TopUsed | u-boot-2014.04/common/board_f.c:387-397 | Without a boot page below the top, all of RAM is used |
| Layout.UpperUsers | u-boot-2014.04/common/board_f.c:405-511 | The users above the monitor, each with the size of its option |
| Layout.LowerUsers | u-boot-2014.04/common/board_f.c:515-609 | The users below it |
| Layout.FrameBufferRoom | u-boot-2014.04/common/lcd.c:542-563 | The frame buffer, rounded up to its unit |
| Layout.TreeRoom | u-boot-2014.04/common/board_f.c:552-569 | The device tree has 4 kB to grow, rounded up to 32 bytes |
| Layout.InOrder | u-boot-2014.04/common/board_f.c:920-949 | For every combination of options the users follow each other in the one order, none twice |
| Layout.LcdDown | u-boot-2014.04/common/lcd.c:542-563 | Rounding the address and the size apart is one aligned step down |
| Layout.BoardInit.SetupDestAddr | u-boot-2014.04/common/board_f.c:364-402 | Starts at the top of RAM, or below the boot page of the other cores |
| Layout.BoardInit.ReserveLogbuffer | u-boot-2014.04/common/board_f.c:405-413 | The log buffer is taken |
| Layout.BoardInit.ReservePram | u-boot-2014.04/common/board_f.c:417-427 | Protected RAM is taken, in kB |
| Layout.BoardInit.ReserveRound4k | u-boot-2014.04/common/board_f.c:430-434 | Down to a page |
| Layout.BoardInit.ReserveMmu | u-boot-2014.04/common/board_f.c:438-452 | The translation table, on a 64 kB limit |
| Layout.BoardInit.ReserveLcd | u-boot-2014.04/common/board_f.c:455-466 | The frame buffer |
| Layout.BoardInit.ReserveTrace | u-boot-2014.04/common/board_f.c:468-478 | The trace buffer |
| Layout.BoardInit.ReserveVideo | u-boot-2014.04/common/board_f.c:482-489 | The video memory |
| Layout.BoardInit.ReserveUboot | u-boot-2014.04/common/board_f.c:492-511 | The monitor, on a 4 kB or 64 kB limit; the stack pointer starts there |
| Layout.BoardInit.ReserveMalloc | u-boot-2014.04/common/board_f.c:515-521 | The malloc arena, directly below the monitor |
| Layout.BoardInit.ReserveBoard | u-boot-2014.04/common/board_f.c:524-532 | Board information |
| Layout.BoardInit.ReserveGlobalData | u-boot-2014.04/common/board_f.c:543-550 | Global data |
| Layout.BoardInit.ReserveFdt | u-boot-2014.04/common/board_f.c:552-569 | The device tree, with room to grow |
| Layout.BoardInit.ReserveExceptionStack | u-boot-2014.04/common/board_f.c:584-587 | The exception stack pointer, 16-byte aligned |
| Layout.BoardInit.ReserveInterruptStack | u-boot-2014.04/common/board_f.c:595-602 | The interrupt stacks, 8-byte aligned |
| Layout.BoardInit.ReserveAbortStack | u-boot-2014.04/common/board_f.c:571-609 | The abort stack |
| Layout.BoardInit.BoardInitF | u-boot-2014.04/common/board_f.c:920-949 | The whole sequence: every address handed on is the place of its user in the layout of the options; the monitor lies on a 4 kB or 64 kB limit, the translation table on a 64 kB limit, the exception stack pointer on a 16-byte limit |
| Layout.AllApart | u-boot-2014.04/common/board_f.c:364-613 | If the steps fit, no two addresses handed on share memory, and all lie below the top |
| Layout.BoardInit.BootArena | u-boot-2014.04/common/board_r.c:258-267 | The whole sequence and, after relocation, the arena computed again: if the steps of the options fit, it is the region of the malloc step, and no two users share memory; the alignments hold in any case |
| Storage.Api.DevStorGet | u-boot-2014.04/api/api_storage.c:99-160 | The first device of a group, or the one after the cookie, with the hint whether there are more |
| Storage.Api.DevStorType | u-boot-2014.04/api/api_storage.c:166-176 | The first group the cookie is in |
| Storage.Api.DevEnumStor | u-boot-2014.04/api/api_storage.c:188-279 | All five cases of one group |
| Storage.Api.DevEnumStorage | u-boot-2014.04/api/api_storage.c:291-304 | The next group with a device answers, and all groups up to it are done |
| Storage.Api.DevEnumReset | u-boot-2014.04/api/api_storage.c:281-289 | No group is started or ended |
| Storage.Api.DevEnum | u-boot-2014.04/api/api.c:197-227 | A NULL cookie starts over, another one moves on to the next group |
| Storage.Api.EnumerateAll | u-boot-2014.04/api/api.c:197-227 | Handing the cookie back from NULL to NULL returns the network device and the first device of every group that has one, in at most ENUM_MAX + 2 calls, from any state of the flags |
| Storage.ListedGroups | u-boot-2014.04/api/api_storage.c:291-304 | Groups appear in strictly increasing order, each at most once |
| Storage.NoneTwice | u-boot-2014.04/api/api_storage.c:188-304 | No device is returned twice |
| Storage.DevicesReturned | u-boot-2014.04/api/api_storage.c:99-160 | A device is returned if and only if it is the first of its group and its type is known: the hint for the first device is always 0 |
| Storage.NothingElse | u-boot-2014.04/api/api_storage.c:188-304 | Nothing is returned but the network device and such first devices |
| Storage.LaterDevicesMissed | u-boot-2014.04/api/api_storage.c:108-113 | So no second or later device of a group is ever returned, whatever its type (the other direction is `DevicesReturned`) |

## Where code and comments differ

The models follow the code.

- `api/api_storage.c`: the comment on `dev_stor_get` promises a hint whether a group has more devices. The first device of a group always comes with the hint 0, so a device is returned if and only if it is the first of its group and of a known type (`Storage.DevicesReturned`), and later ones never are (`Storage.LaterDevicesMissed`).
- `common/bedbug.c`: the comments list BO encodings with ignored `z` bits. The cases cover those with clear `z` bits only; other branches are predicted as not taken (`NextAddress.ZBitMissed`).
- `common/cmd_eeprom.c`: the comment promises that no write crosses a page. The page offset is taken from the low byte of the offset, so this holds up to 256-byte pages (`Eeprom.PageBitsLimit`).
- `common/cmd_fdt.c`: a printable value may end in a newline. The byte behind the value then decides, and parsing adds a NUL (`FdtRoundTrip.PrintParse`).
- `common/cmd_flash.c`: a range over several banks is planned only as far as the banks follow each other, in the order of the list; what lies behind a gap is left out without an error (`FlashPlan.MissedSector`, `FlashPlan.GapLeavesOut`). A range that ends with the address space wraps: banks listed behind its end are taken too, from address 0 on as far as they follow each other (`FlashPlan.FillSectRanges`, `FlashPlan.TopTakesBankAtZero`).
- `common/cmd_fdc.c`: the block number is not limited, but the command holds one byte for the track, so from track 256 on other blocks are read and reported as success (`Floppy.ReadsRight`, `Floppy.TrackWraps`).
- `common/cmd_load.c`: the receiver acknowledges a packet and may still take it back when the next header is damaged (`KermitLine.LateHeaderErrorLosesData`). Loading an empty dump reports 0xFFFFFFFF, 0 and a size of 2. A dump of more than 16 bytes that passes the end of the address space arrives whole, but with a wrong first or last address (`SRecordTransfer.ToldExact`, `SRecordTransfer.PassingTheEnd`).

## Left out

- Kermit: the baud rate switch, the console and the callers of `k_recv`; a run is complete, interrupted, or waiting for a character.
- KermitDelivery.ExactlyOnce: needs every group of equally numbered packets to arrive with its number first and to end with a whole copy, as the comment in the source assumes; `KermitLine.LineIsExchange` derives that from the line, `KermitSession.Delivered` states what happens without that, and `KermitLine.LateHeaderErrorLosesData` shows why it is needed.
- KermitLine.LineIsExchange: a copy whose number is damaged into another number is not covered, because the receiver takes it for another packet; a copy that loses its START is noise.
- Ymodem and xmodem loads, which are thin wrappers over code elsewhere.
- SRecordTransfer.LoadSerial: flash is a write that may refuse a record and otherwise holds it; what an aborted load has stored is not kept in its result; echo, progress dots and console hang-up are not modelled; a data record shorter than its address field is reported as undefined, because the original copies a negative number of bytes.
- SRecordTransfer.SaveSerial: assumes that ^C does not interrupt.
- Eeprom: FRAM, SPI, the X40430 control registers, write enable, the delay after a page and the reset of the bus.
- Eeprom.Bus.Write: after a failed transfer only the bytes outside the range are known.
- LogBuffer.Logger.Printk: requires the text to fit `buf`, which `strcpy` needs; echo to the console, the warm-boot adjustment of `con` and the alternative buffer address are not modelled.
- FlashPlan.FillSectRanges: requires banks that do not overlap and lie inside the address space, with at most 32768 sectors each.
- FlashProtect.AddrSpec: takes the two numbers as read; text that is no number is not modelled.
- FlashProtect.FlashArray.SectProtect: models software protection only; `flash_sect_erase` uses the same plan with a driver call for each bank and is not repeated.
- Floppy: a geometry with more than 256 heads, result bytes, the interrupt flags, the motor and polling; a poll is eventually answered.
- Bootstage: the report, accumulated times and export to the device tree.
- Bootstage.Stage.AddRecord: does not model the progress display.
- Bootstage.Stage.UnstashFrom: the memory lies below the end of the address space; leaving accessible memory on a corrupt stash is a separate outcome.
- Fdt.ParseProp: reading past the last argument is a separate outcome, and the size of the caller's data buffer is not modelled.
- FdtRoundTrip.PrintData: text is characters and strings, not quotes and commas on a console.
- BedBug: reading words and numbers from text, the names of special registers, the search for an opcode, the operand that is the literal `cr2`, and byte swapping on a little-endian host.
- NextAddress.FindNextAddress: takes the opcode entry found for the instruction as given; a branch to CTR that also counts is an invalid form and is compared to nothing.
- Layout: takes the top of RAM, the size of the video memory and of the device tree as given; what is written into the regions is not modelled.
- Layout.BoardInit.BoardInitF: promises the layout only if its steps fit below the top of RAM; without enough memory the addresses wrap.
- Storage: block counts and sizes, opening and reading of devices, and network enumeration beyond whether there is a device.
