# RTCM 3 framing and codec: a model with proofs

An RTCM 3 message travels in a frame: the byte 0xD3, six reserved bits, ten
bits of length, the message, and a 24-bit parity (CRC-24Q).  The repository
holds three stacks for such frames: the Go packages, RTKLIB and BNC.  This
project models all three on the same definitions and proves what they promise,
and that they agree.

| file | what it models |
|---|---|
| Bits, BitFields, BitReader | fields of bits; RTKLIB's and Go's readers and setters; BNC's 64-bit sliding window |
| Crc24q | the bitwise and the table form of CRC-24Q, the three parity tests, burst detection |
| Frames | the frame and streams of frames, as all three framers see them |
| GoFramer, GoStream | the Go handler: pushback channel, one fetch, a whole run, the filter |
| RtklibFramer | RTKLIB's state machine, a byte at a time |
| BncFramer, BncStream | BNC's sliding buffer, `GetMessage`, and `Decode` over chunks |
| FramersAgree | the three framers on one stream |
| Layout | runs of writes and reads at a moving bit position, and columns of fields |
| MsmPlaces | the columns of MSM4 to MSM7 written out: where each number stands, and in how many bits |
| MsmMasks, MsmIndex, MsmEncode, MsmDecode, MsmRoundTrip | RTKLIB's MSM4 and MSM7 encoder and decoder |
| MsmWalk, MsmBnc, MsmGo | BNC's and Go's reading of the same messages |
| Station, GenRtcm3 | message types 1005 and 1006, and the way from an encoder through the framer to the decoders |
| MsmToBnc, MsmLost | the way from RTKLIB's MSM encoder to BNC's readings; two messages that get lost on their way |
| SignalIndex | slots for the signals of an MSM |
| WeekTracking, AdjWeek | the week of a timestamp, over whole runs, in Go and in RTKLIB |

Bytes are 8-bit vectors and the CRC register is a 32-bit vector.  The other
machine words are sub-ranges of `int`, with a modulus where the source wraps
around.  A buffer is an array, an object that updates its fields is a class,
and each method is proved against a function of its inputs or of the old
state.  A method that ends in a whole run (`HandleMessages`, `Decode`,
`InputFile`) equals a function on the stream, and the theorems are about that
function.

Five promises fail on some inputs.  In each case the model does what the code
does, a lemma gives the failing input or says that such inputs exist, and a
theorem says exactly when the promise holds:

* the Go handler reads bits 48 to 77 of any MSM frame; on a valid frame whose
  message is shorter than four bytes it indexes past the end of the slice
  (`GoStream.PanicsExactlyOnShortMsm`, `GoStream.ShortMsmExists`);
* BNC takes the three bytes of a zero-length header for a message as soon as
  they are in, and its inner loop may then never end; a frame of type 0 ends
  the loop early.  A run over any chunks is right exactly if no frame is of
  type 0 and no fill of the buffer ends at a zero-length header before two
  bytes, of the input or left from earlier, that spell a non-zero type
  (`BncStream.ChunksExact`, `BncStream.PartialZeroHeaderSpins`,
  `BncStream.TypeZeroHidesFrames`);
* `GetBitsAsInt64` is not two's complement for a single set bit
  (`BitFields.GoSignedIsTwosComplement`);
* the MSM encoder accepts more cells than the cell mask has room for, and the
  message then does not decode (`MsmRoundTrip.MsmDecodes`,
  `MsmLost.SeventyTwoCellsAreLost`);
* BNC tests for the types of SBAS with a range that is empty, so it reads no
  SBAS message; of RTKLIB's MSMs with 1 to 64 cells it reads exactly the others
  (`MsmToBnc.MsmReachesBnc`, `MsmBnc.ReadersAgree`, `MsmLost.SbasIsLost`).

## Model

| member | source | states |
|---|---|---|
| BitFields.GetBitu | c/rtklib/rtkcmn.c:610-616 | the value of the field, for every width of up to 32 bits and with no overflow |
| BitFields.GetBits | c/rtklib/rtkcmn.c:617-622 | the two's complement value of the field |
| BitFields.GetBitg | c/rtklib/rtcm3.c:107-111 | the sign-magnitude value of the field |
| BitFields.GetBits38 | c/rtklib/rtcm3.c:371-374 | a 38-bit two's complement field out of a 32-bit and a 6-bit part |
| BitFields.SetBitu | c/rtklib/rtkcmn.c:631-639 | exactly the field's bits are replaced, by the low bits of the datum; a width outside 1 to 32 changes nothing |
| BitFields.SetBits | c/rtklib/rtkcmn.c:640-644 | exactly the field's bits are replaced, by the sign and the low bits of the datum |
| BitFields.SetBitg | c/rtklib/rtcm3e.c:69-73 | exactly the field's bits are replaced, by sign and magnitude |
| BitFields.Set38Bits | c/rtklib/rtcm3e.c:75-81 | the 38-bit numeral of the whole units of a real number, in range |
| BitFields.GetBitsAsUint64 | rtcm/utils/utils.go:1084-1110 | the field's value modulo 2^64, so its value for up to 64 bits |
| BitFields.GetBitsAsInt64 | rtcm/utils/utils.go:1115-1138 | what the signed reader returns at every width, the odd case of width 1 included |
| BitFields.GoSignedIsTwosComplement | rtcm/utils/utils.go:1115-1138 | that is two's complement exactly if the field is not one set bit |
| BitFields.Readers38Agree | rtcm/utils/utils.go:1115-1138 | getbits_38 and the Go reader at width 38 return the same number |
| BitFields.SetbitsRoundTrip | c/rtklib/rtkcmn.c:617-644 | getbits undoes setbits exactly on data in two's complement range |
| BitFields.SetbitgRoundTrip | c/rtklib/rtcm3e.c:69-73 | getbitg undoes setbitg exactly if the magnitude fits |
| BitFields.SetbitsKeepsSign | c/rtklib/rtkcmn.c:640-644 | whatever the datum, the first bit of the field is its sign and the others are its low bits |
| BitFields.SetbitgKeepsSign | c/rtklib/rtcm3e.c:69-73 | the same for sign and magnitude |
| BitFields.WriteAll | c/rtklib/rtkcmn.c:631-644 | a sequence of setter calls leaves the buffer with each field overwritten in turn and nothing else |
| BitFields.BitFieldRoundTrip | c/rtklib/rtkcmn.c:610-644 | after any sequence of non-overlapping writes, the matching getter returns each datum, exactly if its field can hold it |
| BitFields.BitKept | c/rtklib/rtkcmn.c:631-644 | every bit outside the written fields is what it was |
| BitReader.BitReader.LoadBits | c/BNC/bits.h:28-34 | the window is filled without overflow, and the load fails exactly when the bits run out |
| BitReader.BitReader.GetBits | c/BNC/bits.h:54-58 | the field at the read position, and the position moved on; at most seven bits stay in the window |
| BitReader.BitReader.GetBits64 | c/BNC/bits.h:38-50 | the same for up to 64 bits, over the path that empties the window half-way |
| BitReader.BitReader.GetBitsSign | c/BNC/bits.h:86-90 | the two's complement value |
| BitReader.BitReader.GetFloatSignM | c/BNC/bits.h:92-99 | the sign-magnitude value |
| BitReader.BitReader.SkipBits | c/BNC/bits.h:101 | the position is moved on |
| BitReader.ReadFields | c/BNC/bits.h:28-101 | any sequence of macro calls returns what the simple readers return at the cumulative positions, and fails exactly when the bits run out |
| BitReader.ReadFieldsSimply | c/rtklib/rtkcmn.c:610-622 | the one-bit-at-a-time readers return the same for the same sequence |
| Crc24q.CRC24 | c/BNC/RTCM3Decoder.cpp:1855-1867 | the register after shifting in all the bytes |
| Crc24q.RtkCrc24q | c/rtklib/rtkcmn.c:674-683 | the table form computes the same register, in 24 bits |
| Crc24q.TableIsShift8 | c/rtklib/rtkcmn.c:283-316 | each of the 256 table entries is the eight-step image of its index |
| Crc24q.TableStepIsByteStep | c/rtklib/rtkcmn.c:674-683 | one table step is eight shift steps, by linearity over GF(2) |
| Crc24q.CrcIsFeed | c/BNC/RTCM3Decoder.cpp:1855-1867 | the register is the remainder of the message's bits, fed in one by one |
| Crc24q.BncParityTest | c/BNC/RTCM3Decoder.cpp:1882-1884 | BNC's comparison of a word is the parity test |
| Crc24q.GoParityTest | rtcm/handler/handler.go:1105-1135 | Go's comparison of three bytes is the parity test |
| Crc24q.RtklibParityTest | c/rtklib/rtcm.c:279-283 | RTKLIB's comparison of a 24-bit field is the parity test |
| Crc24q.ParityIsEmptyRegister | c/rtklib/rtkcmn.c:674-683 | a frame passes exactly if feeding all of it, parity included, leaves the register empty |
| Crc24q.BurstDetected | c/rtklib/rtkcmn.c:674-683 | two frames of one length that differ only inside one window of 24 bits cannot both pass |
| Crc24q.BurstDecides | c/rtklib/rtkcmn.c:674-683 | whether a frame with a burst passes depends on the burst alone: it does exactly if the burst leaves an empty register empty |
| Crc24q.TwentyFiveBitBurst | c/rtklib/rtkcmn.c:674-683 | of the bursts of 25 bits exactly one goes undetected, the generator polynomial |
| Crc24q.TwentyFiveBitBurstUndetected | c/rtklib/rtkcmn.c:674-683 | so 24 is the most: every frame that passes has, for every window of 25 bits, another that passes and differs only there |
| Frames.HeaderAsBits | rtcm/handler/handler.go:355-389 | reserved bits and length as bytes and as bit fields |
| Frames.TypeAsBits | c/BNC/RTCM3Decoder.cpp:1909 | the message type as bytes and as a bit field |
| GoFramer.ByteChannel.GetNextByte | rtcm/pushback/byte_channel.go:45-59 | the first byte of pushback buffer and channel together is taken off, or the input is at its end |
| GoFramer.ByteChannel.PushBack | rtcm/pushback/byte_channel.go:63-69 | the byte joins the pushback buffer |
| GoFramer.GetMessageLengthAndType | rtcm/handler/handler.go:355-389 | accepts exactly a good header, and its length and type |
| GoFramer.CheckCRC | rtcm/handler/handler.go:1105-1135 | rejects exactly frames that are too short or fail the parity test |
| GoFramer.GetMessage | rtcm/handler/handler.go:394-482 | in the terms of the bits of its argument: the message with type, raw data and, for an MSM4 or MSM7, the timestamp in bits 48 to 77; or the plain data; or the panic that a byte slice gives rise to |
| GoFramer.MsmNumbers | rtcm/utils/utils.go:314-326 | the message types whose timestamp is read are the numbers of MSM4 and MSM7 from GPS to NavIC |
| GoFramer.EatUntilStartOfFrame | rtcm/handler/handler.go:337-350 | reads up to and including the first preamble, or to the end |
| GoFramer.FetchNextMessageFrame | rtcm/handler/handler.go:212-331 | takes exactly the next segment off pushback buffer and channel, never none, and leaves at most one byte pushed back |
| GoStream.HandleMessages | rtcm/handler/handler.go:183-200 | emits the messages of the run on its whole input |
| GoStream.NextIsSegment | rtcm/handler/handler.go:212-331 | a fetch types its segment by the frame it is, or -1, and panics exactly on a short MSM |
| GoStream.Conservation | rtcm/handler/handler.go:183-331 | for every closed input the raw data of the messages, and what a panic leaves, is the input |
| GoStream.PanicsExactlyOnShortMsm | rtcm/handler/handler.go:459-462 | the run ends normally exactly if no segment is a short MSM, and then the messages are the segments |
| GoStream.ShortMsmExists | rtcm/handler/handler.go:459-462 | a frame of eight bytes on which it panics |
| GoStream.ShortMsmIs | rtcm/handler/handler.go:459-462 | the frames on which it panics, by their bits: MSM4 and MSM7 of one to three bytes |
| GoStream.MessagesAreClassified | rtcm/handler/handler.go:355-482 | a type other than -1 is emitted exactly for a frame with preamble, zero reserved bits, right length and right parity, each read off the bits; and it is that frame's type, with the timestamp in bits 48 to 77 for an MSM4 or MSM7 and 0 for any other |
| GoStream.ExactSegmentation | rtcm/handler/handler.go:183-350 | a stream of valid frames, separated junk, damaged frames and preambles with a bad header, perhaps cut off inside a frame, comes out as exactly those pieces: damaged frames whole, bad headers as five bytes |
| GoStream.EveryStreamIsPieces | rtcm/handler/handler.go:212-331 | and there is no other kind of stream |
| GoStream.TruncatedIsUnfinished | rtcm/handler/handler.go:212-331 | a proper prefix of a frame is such a cut-off end |
| GoStream.WriteRTCMMessages | apps/rtcmfilter/main.go:114-136 | writes the raw data of the messages that are not of type -1, in order |
| GoStream.FilterSoundAndIdempotent | apps/rtcmfilter/main.go:114-136 | everything the filter writes is valid frames, and filtering its output gives it back byte for byte |
| RtklibFramer.Rtcm.InputRtcm3 | c/rtklib/rtcm.c:261-286 | one step of the machine: what is held and what is handed on, in a buffer that never overflows |
| RtklibFramer.InputFile | c/rtklib/rtcm.c:313-324 | the run of the machine over a file, as repeated calls make it |
| RtklibFramer.DeliversOnlyFrames | c/rtklib/rtcm.c:261-286 | on any input whatever is handed on is a whole frame with matching parity |
| RtklibFramer.FrameDelivered | c/rtklib/rtcm.c:261-286 | a frame fed to the idle machine is handed on at its last byte and not before |
| RtklibFramer.DamagedDropped | c/rtklib/rtcm.c:277-283 | a frame of the right length with wrong parity is dropped, and what follows is received as if it had not been there |
| BncFramer.RTCM3Decoder.GetMessage | c/BNC/RTCM3Decoder.cpp:1871-1910 | the new buffer, counters and return value of a call, stale bytes behind the data included |
| BncFramer.ScanResumes | c/BNC/RTCM3Decoder.cpp:1871-1910 | a scan for frames interrupted anywhere and resumed finds what one scan finds |
| BncFramer.FirstFrameIsTaken | c/BNC/RTCM3Decoder.cpp:1871-1910 | the scan takes the first frame before which no preamble announces a frame that is still incomplete, wherever that is, inside a damaged frame too, and goes on right behind it |
| BncFramer.NoFrameIsTaken | c/BNC/RTCM3Decoder.cpp:1871-1910 | it stops at the first preamble that announces more bytes than there are, or before the last two bytes |
| BncFramer.BenignSplits | c/BNC/RTCM3Decoder.cpp:1871-1910 | so does the absence of zero-length headers and type-0 frames carry over to the parts |
| BncStream.NextLooks | c/BNC/RTCM3Decoder.cpp:1871-1910 | a call takes the next frame of the scan, or waits, with the number of bytes it asks for; it reports something other than a frame exactly on a zero-length header before a non-zero type |
| BncStream.PhantomRepeats | c/BNC/RTCM3Decoder.cpp:1893-1909 | a message reported without bytes to skip is reported for ever |
| BncStream.BufferBound | c/BNC/RTCM3Decoder.cpp:1871-1910 | after a return of 0 at most 1028 bytes stay buffered, or a type-0 frame is in front |
| BncStream.DrainMessages | c/BNC/RTCM3Decoder.cpp:1753-1754 | the inner loop hands on the blocks of the run, or is found to spin |
| BncStream.DrainRuns | c/BNC/RTCM3Decoder.cpp:1753-1754 | without type-0 frames the inner loop hands on the frames of one scan, and spins exactly on a phantom: a zero-length header left over, before two bytes that spell a non-zero type; which two bytes is computed from the input |
| BncStream.DrainExact | c/BNC/RTCM3Decoder.cpp:1753-1754 | the inner loop ends with all pending frames handed on exactly if none is of type 0 and there is no phantom behind them |
| BncStream.BareHeaderIsPhantom | c/BNC/RTCM3Decoder.cpp:1893-1909 | behind a frame, the bare three bytes of a zero-length header always are one |
| BncStream.Decode | c/BNC/RTCM3Decoder.cpp:1740-1754 | the run over one chunk: blocks, state, and what was not taken |
| BncStream.DecodeRuns | c/BNC/RTCM3Decoder.cpp:1740-1754 | without type-0 frames one call spins exactly if one of its fills has a phantom, and else takes its whole chunk, hands on the frames of one scan and keeps at most 1028 bytes |
| BncStream.ChunksExact | c/BNC/RTCM3Decoder.cpp:1740-1754 | over any chunks of any stream: the calls end, take everything and hand on exactly the frames of one scan if and only if none is of type 0 and no fill has a phantom |
| BncStream.DecodeBenign | c/BNC/RTCM3Decoder.cpp:1740-1754 | so one call takes all of a benign chunk, hands on the frames of one scan and keeps at most 1028 bytes |
| BncStream.ChunkIndependence | c/BNC/RTCM3Decoder.cpp:1740-1754 | however a benign stream is cut up, the blocks are those of one scan of the whole, in order |
| BncStream.CutsDoNotMatter | c/BNC/RTCM3Decoder.cpp:1740-1754 | two ways to cut a stream give the same blocks and the same rest |
| BncStream.PartialZeroHeaderSpins | c/BNC/RTCM3Decoder.cpp:1893-1909 | five bytes on which a fresh decoder's loop does not end |
| BncStream.TypeZeroEndsLoop | c/BNC/RTCM3Decoder.cpp:1753-1754 | a type-0 frame ends the loop with the frames behind it still waiting |
| BncStream.TypeZeroExists | c/BNC/RTCM3Decoder.cpp:1909 | eight bytes that are a valid frame of type 0 |
| BncStream.TypeZeroHidesFrames | c/BNC/RTCM3Decoder.cpp:1753-1754 | with them in front, a call hands on none of the frames of its chunk |
| FramersAgree.RtklibDeliversFrames | c/rtklib/rtcm.c:261-286 | on frames among other bytes and damaged frames RTKLIB hands on exactly the frames |
| FramersAgree.BncScansFrames | c/BNC/RTCM3Decoder.cpp:1871-1910 | valid frames among other bytes, and damaged frames without a second preamble, are a benign stream, and BNC's scan finds exactly the frames |
| FramersAgree.GoDeliversFrames | rtcm/handler/handler.go:183-331 | on the same streams the Go handler finds exactly the frames, and does not panic, exactly if none is a short MSM |
| FramersAgree.FramersAgree | rtcm/handler/handler.go:212-331 | all three deliver the same frames, damaged ones between them, whatever the chunks BNC gets |
| Layout.ColumnRoundTrip | c/rtklib/rtcm3.c:2028-2064 | a column reads back as written exactly if every number fits its field |
| MsmMasks.IdsAreTheSetBits | c/rtklib/rtcm3.c:1779-1787 | the list made of a mask holds an id exactly if the id's bit is set |
| MsmIndex.GenMsmIndex | c/rtklib/rtcm3e.c:1693-1731 | the index arrays number the satellites, signals and cells seen, in ascending order, and the counts; cells past 64 are not numbered |
| MsmIndex.SignalsAreObserved | c/rtklib/rtcm3e.c:1700-1730 | the loops visit a signal exactly if some observation holds it and satellite and signal have ids |
| MsmIndex.NumberIsPlace | c/rtklib/rtcm3e.c:1710-1730 | the number given to a satellite, signal or cell is its place in the list of those seen |
| MsmIndex.CellMaskIsRowMajor | c/rtklib/rtcm3e.c:1717-1730 | row r, column c of the cell mask is set exactly if the r-th satellite was observed on the c-th signal |
| MsmEncode.EncodeMsmHead | c/rtklib/rtcm3e.c:1817-1886 | the header's bits with the three masks, at bit 24, and nothing else changed |
| MsmEncode.EncodeMsm4 | c/rtklib/rtcm3e.c:2194-2220 | header and seven columns one after another, within 1023 bytes, each number at its place and in its width, as MsmPlaces has them |
| MsmEncode.EncodeMsm7 | c/rtklib/rtcm3e.c:2281-2310 | header and ten columns one after another, within 1023 bytes, each number at its place and in its width |
| MsmEncode.BodySizes | c/rtklib/rtcm3.c:1843-1847 | the columns take the bits that the decoder's length checks expect |
| MsmDecode.DecodeMsmHead | c/rtklib/rtcm3.c:1745-1821 | each field of the header, by its place in bits, or -1 on exactly the four error conditions |
| MsmDecode.FollowsItsStation | c/rtklib/rtcm3.c:192-214 | a decoder that follows a station, or was told one, takes messages of that station only, and any other decoder takes all |
| MsmDecode.ColumnsInPlace | c/rtklib/rtcm3.c:1843-1874 | the columns of MSM4 to MSM7 are read at the places, and take the bits, that MsmPlaces writes out |
| MsmDecode.DecodeMsm4 | c/rtklib/rtcm3.c:1832-1883 | the integers of the seven columns, each from its place in bits, or -1 exactly if header or columns do not fit |
| MsmDecode.DecodeMsm7 | c/rtklib/rtcm3.c:2005-2070 | the integers of the ten columns, each from its place in bits, or -1 exactly if header or columns do not fit |
| MsmDecode.NumberMatchesSwitch | c/rtklib/rtcm3.c:2145-2183 | the decoder's switch undoes the numbers that the encoder adds up |
| MsmDecode.DecodeRtcm3 | c/rtklib/rtcm3.c:2145-2183 | an MSM4 or MSM7 goes by its own number to the decoder of its constellation |
| MsmRoundTrip.HeadReadsBack | c/rtklib/rtcm3e.c:1854-1877 | an encoded header reads back field by field, whatever follows it |
| MsmRoundTrip.HeadOnTheWire | c/rtklib/rtcm3e.c:1854-1877 | the encoded header bit by bit: its fields, zeros, and the three masks |
| MsmRoundTrip.BodyReadsBack | c/rtklib/rtcm3.c:2028-2064 | the columns read back as written exactly if all numbers fit |
| MsmRoundTrip.MsmDecodes | c/rtklib/rtcm3.c:1745-2070 | an encoded message decodes exactly if satellites times signals is at most 64; then satellites, signals and cell mask come back, and the columns exactly if they fit |
| MsmRoundTrip.ListsAreObserved | c/rtklib/rtcm3.c:1779-1787 | the lists that come back hold exactly the satellites and signals that were observed, in ascending order |
| MsmWalk.SaveMsmObs | c/rtklib/rtcm3.c:1693-1742 | gives the j-th present cell, row by row, the satellite, the signal and the entries it stands for |
| MsmWalk.ReadingOfSignal | c/rtklib/rtcm3e.c:1717-1730 | every encoded signal is read back with its own satellite, signal and entries: the decoder's cell number is the encoder's |
| MsmWalk.CountBits | c/BNC/RTCM3Decoder.cpp:546-551 | clearing the rightmost bit until none is left counts the bits |
| MsmWalk.FillSatellites | c/BNC/RTCM3Decoder.cpp:566-583 | the r-th entry read lies at the place that the walk will look for row r |
| MsmWalk.FillCells | c/BNC/RTCM3Decoder.cpp:590-695 | a present cell's entry lies at the cell's own bit number |
| MsmWalk.NextCell | c/BNC/RTCM3Decoder.cpp:699-719 | the counters go to the next signal, or to the first signal of the next satellite; the undefined shift by -1 makes no difference |
| MsmWalk.WalkCells | c/BNC/RTCM3Decoder.cpp:696-720 | for 1 to 64 cells the downward walk yields the same readings, in the same order, as RTKLIB's |
| MsmBnc.SystemOf | c/BNC/RTCM3Decoder.cpp:474-494 | the seven range tests accept MSM1 to MSM7 of every constellation but SBAS |
| MsmBnc.DecodeRTCM3MSM | c/BNC/RTCM3Decoder.cpp:462-695 | by the frame's own type: the masks and columns of an MSM4 to MSM7, each number from its place, through the bit window; only the time of an MSM1 to MSM3; the rejection of any other type; failure exactly when the message is too short |
| MsmBnc.ReadersAgree | c/BNC/RTCM3Decoder.cpp:462-695 | on any frame of RTKLIB's MSM4 to MSM7 types, BNC reads it exactly if RTKLIB's decoder does, finds a cell in it, and it is not for SBAS; and both read the same masks and columns |
| MsmGo.GetIds | rtcm/header/header.go:538-579 | the ids of the set bits, in ascending order |
| MsmGo.GetCellTable | rtcm/header/header.go:582-622 | row r of the table is the r-th stretch of the cell mask |
| MsmGo.TableMatchesWalk | rtcm/header/header.go:582-622 | an entry of the table is true exactly if the walk over the cells makes a reading of it, with the satellite of its row and the signal of its column |
| MsmGo.GetMSMHeader | rtcm/header/header.go:299-480 | accepts exactly MSM4 and MSM7 frames that RTKLIB's header decoder accepts, and finds the same header, each field at its place in bits |
| MsmGo.HandlerTimestamp | rtcm/handler/handler.go:459-462 | the timestamp that the handler gives a message is the one in its header |
| MsmGo.GetSatelliteCells | rtcm/type_msm4/satellite/satellite.go:85-146 | fails exactly if the columns do not fit, and else pairs each satellite with its 8 and 10 bits, which are RTKLIB's first two columns |
| Station.EncodeType1005 | c/rtklib/rtcm3e.c:489-511 | the message's bits, at bit 24, and nothing else changed |
| Station.EncodeType1006 | c/rtklib/rtcm3e.c:513-542 | the same with the height, 0 if it is out of range |
| Station.DecodeType1005 | c/rtklib/rtcm3.c:376-408 | station, year and coordinates in metres from their places in bits, or -1 unless the length is exactly right and the station is followed |
| Station.DecodeType1006 | c/rtklib/rtcm3.c:410-443 | the same with the height, or -1 unless the length suffices and the station is followed |
| Station.GetMessage | rtcm/type1005/message.go:119-168 | accepts exactly frames of the type and length, and reads the fields at the places RTKLIB reads them; the 1006 package does the same with the height |
| Station.ArpReadsBack | c/rtklib/rtcm3e.c:489-542 | any buffer that holds the encoded message reads back as the station and its coordinates |
| Station.ArpOnTheWire | c/rtklib/rtcm3e.c:489-542 | the encoded message bit by bit: number, station, indicators, and coordinates and height which, times 0.0001, are within 0.1 mm and 0.05 mm of those given in metres |
| Station.ReadingIsStation | c/rtklib/rtcm3.c:400-442 | decoded and scaled, coordinates come back short by less than 0.1 mm, and a height from 0 to 6.5535 m to the nearest 0.1 mm |
| GenRtcm3.GenRtcm3 | c/rtklib/rtcm.c:349-387 | a valid frame that holds the message and less than a byte of zeros behind it, or 0 exactly if the message is over 1023 bytes |
| GenRtcm3.MessageFits | c/rtklib/rtcm.c:372-377 | no station message, MSM4 or MSM7 is over 1023 bytes, whatever the observations |
| GenRtcm3.ArpRoundTrip | c/rtklib/rtcm.c:261-387 | a 1005 or 1006 frame arrives at its last byte, and RTKLIB and Go read the station and, to within 0.1 mm, the coordinates that were encoded |
| GenRtcm3.SendArp | c/rtklib/rtcm.c:261-387 | the same through all the code: encode, frame, receive, decode twice |
| GenRtcm3.MsmArrives | c/rtklib/rtcm.c:261-387 | an MSM frame arrives at its last byte, and decodes exactly if satellites times signals is at most 64 |
| GenRtcm3.SendMsm | c/rtklib/rtcm.c:261-387 | the same through all the code: encode, frame, receive, decode |
| GenRtcm3.MsmReachesGo | rtcm/header/header.go:299-480 | the Go header package accepts that frame under the same condition, with the same masks and cells |
| GenRtcm3.HandlerGetsFrame | rtcm/handler/handler.go:394-482 | from a frame of gen_rtcm3 the Go handler makes one message, with the type and, for an MSM, the 30 bits of the epoch that were encoded |
| GenRtcm3.FrameExists | c/rtklib/rtcm.c:349-387 | every message has a frame |
| MsmToBnc.MsmReachesBnc | c/BNC/RTCM3Decoder.cpp:462-695 | of the frames with 1 to 64 cells BNC's reader reads exactly those that are not for SBAS, and it reports the masks, the cells and, if they fit, the columns that were encoded, but for the column it passes over |
| MsmToBnc.BncReadsSignals | c/BNC/RTCM3Decoder.cpp:462-720 | BNC's walk over what its reader has read gives every encoded signal its own satellite, signal and entries |
| MsmToBnc.SendMsmToBnc | c/BNC/RTCM3Decoder.cpp:462-720 | the same through all the code: encode, frame, BNC's framer, reader and walk |
| MsmLost.SeventyTwoCellsAreLost | c/rtklib/rtcm3.c:1796-1800 | nine satellites with eight signals each are encoded and framed, and the frame does not decode |
| MsmLost.SbasIsLost | c/BNC/RTCM3Decoder.cpp:483-494 | a frame with one SBAS cell that RTKLIB decodes and BNC rejects |
| SignalIndex.SigIndex | c/rtklib/rtcm3.c:1601-1637 | each signal gets its slot, and the array's other entries are untouched |
| SignalIndex.SlotKind | c/rtklib/rtcm3.c:1601-1637 | what a slot says: first of maximal positive priority on its frequency, one of the first NEXOBS others, or none |
| SignalIndex.FrequencySlot | c/rtklib/rtcm3.c:1607-1624 | a frequency's slot goes to the first of the signals of the highest priority on it, if that is positive |
| SignalIndex.SlotsAreDistinct | c/rtklib/rtcm3.c:1601-1637 | no two signals get the same slot |
| SignalIndex.ExtendedInOrder | c/rtklib/rtcm3.c:1625-1634 | extended slots go to signals in their order |
| SignalIndex.ExtendedWithoutGaps | c/rtklib/rtcm3.c:1625-1634 | each extended slot but the first comes after the one before it has been given to an earlier signal |
| SignalIndex.NoSpaceLeft | c/rtklib/rtcm3.c:1625-1634 | a known signal goes without a slot only when the last extended one is taken |
| SignalIndex.SlotIsTaken | c/rtklib/rtcm3.c:1613-1624 | a frequency with a signal of positive priority has its slot given to one |
| WeekTracking.GetStartOfLastSundayUTC | rtcm/handler/handler.go:849-864 | midnight at the start of the last Sunday |
| WeekTracking.Handler.constructor | rtcm/handler/handler.go:122-178 | the start of each system's week, and the start's own timestamp in it |
| WeekTracking.GetUTCFromTimestamp | rtcm/handler/handler.go:1140-1166 | the instant and the week, or the range error with the week unchanged |
| WeekTracking.Handler.GetUTCFromGPSTime | rtcm/handler/handler.go:701-727 | one step for GPS; the other systems' fields are untouched |
| WeekTracking.Handler.GetUTCFromBeidouTime | rtcm/handler/handler.go:818-845 | one step for Beidou |
| WeekTracking.Handler.GetUTCFromGlonassTime | rtcm/handler/handler.go:731-786 | one step for Glonass, with the errors for bad timestamps |
| WeekTracking.StepExact | rtcm/handler/handler.go:1140-1166 | a call gives back the stamped instant exactly if it is not before the last and less than a week after it |
| WeekTracking.ConvertMeans | rtcm/handler/handler.go:1140-1166 | any timestamp: out of range it is an error that changes nothing, else the first instant so stamped that is not before the previous one |
| WeekTracking.ConvertGlonassMeans | rtcm/handler/handler.go:731-786 | the same over Moscow days |
| WeekTracking.GlonassStampBits | rtcm/utils/utils.go:262-279 | a Glonass timestamp is 3 bits of day above 27 bits of milliseconds |
| WeekTracking.StampsInMilliseconds | rtcm/handler/handler.go:139-156 | GPS is 18 seconds, Beidou 4 seconds and Glonass 3 hours ahead of UTC |
| WeekTracking.TrackExact | rtcm/handler/handler.go:701-727 | a run gives back every instant exactly if no step goes back or reaches a week |
| WeekTracking.TrackGlonassExact | rtcm/handler/handler.go:731-786 | the same for Moscow days and seven of them |
| WeekTracking.HandlerTracks | rtcm/handler/handler.go:122-178 | the same from a handler's start, for all three systems |
| AdjWeek.Rtcm.AdjWeek | c/rtklib/rtcm3.c:113-124 | the adjusted time |
| AdjWeek.StepExact | c/rtklib/rtcm3.c:113-124 | a call reconstructs an instant exactly if it is within half a week of the time so far, the boundary included only inside the same week |
| AdjWeek.RunExact | c/rtklib/rtcm3.c:113-124 | a run reconstructs every instant exactly if each is within half a week of the instant before it, the boundary included only inside the week in which that one left the clock |
| AdjWeek.FirstRunExact | c/rtklib/rtcm3.c:119 | a run without a time at first is one from the clock's time |
| AdjWeek.GpsTimeBegins | c/rtklib/rtkcmn.c:1246-1269 | GPS time begins on 6 January 1980 |
| AdjWeek.TimeRoundTrip | c/rtklib/rtkcmn.c:1246-1269 | week and time of week, and the time, are converted into each other |
| AdjWeek.TimeOfWeekLimits | c/rtklib/rtkcmn.c:1246-1256 | a time of week beyond 1E9 seconds counts as 0 |
| AdjWeek.HalfWeekRun | c/rtklib/rtkcmn.c:1246-1269 | steps strictly within half a week, either way, are always reconstructed |

## Left out

- Files, serial lines, sockets, logging, configuration, display and the web pages: input and output only; a closed channel is the sequence of its bytes, and the filter's writer accepts everything.
- The text of the errors that the Go functions return beside a message: only whether there is one, and the message, is modelled.
- The Go crc24q library is not part of this model; it is taken to be the CRC-24Q of the C code.
- rtklib.h is not part of this model: the buffer is taken to hold 1200 bytes, and NFREQ and NEXOBS are parameters.
- Decoding of messages other than 1005, 1006, MSM4 and MSM7, and what the decoders do with a message beyond its integers: `decode_rtcm3` is the frame it is handed.
- SSR messages: the encoder and the decoder scale the third clock term differently, so no round trip holds.
- The float generation before the MSM columns (`gen_msm_sat`, `gen_msm_sig`, `gen_obs_*`) and the scaling behind them: the theorems start and end at the integers; the ids that `to_satid` and `to_sigid` give are the input.
- MSM5 and MSM6 in RTKLIB: its encoders and decoders for them, whose columns are those of MSM4 and MSM7 in other combinations; BNC's reader takes all four.
- Double arithmetic: coordinates, heights and times of week are real numbers.
- Carrier-phase unwrapping (`adjcp`, `cp_pr`): valid only for limited drift.
- Galileo week tracking: it reads the GPS week field; and the weeks kept through the Go `GetMessage`, whose helper works on a copy of the handler.
- Fractions of a millisecond in the Go handler's start time, which its conversion to a timestamp drops.
- The circular queue, lock-time quantisers, satellite numbering and display of timestamps: easy members.
- BitFields.GetBitu: widths over 32 are excluded, as in the function's header comment; the setters do accept them.
- BitReader.BitReader.GetBits: width 0 is excluded, because the macro would then shift by the width of the word; widths of 57 to 63 are covered as far as GETBITS64 uses them.
- BitReader.BitReader.SkipBits: skips of more than 56 bits are excluded; no caller asks for one.
- BitReader.BitReader.GetFloatSignM: the number before it is scaled by a float constant.
- MsmWalk.WalkCells: 1 to 64 cells; without a cell the source reads a field of width 0, and with more it shifts by more than the word.
- MsmBnc.DecodeRTCM3MSM: the observation epochs it opens and closes, and its tables of codes and wavelengths; a message without cells or with more than 64 has an outcome of its own and is not followed further, because the source then shifts by the width of the word or more.
- MsmDecode.DecodeMsmHead: adjusting the week of the time, which is `AdjWeek`, and storing the station id.
- SignalIndex.SigIndex: the priorities and frequencies are inputs; unknown codes come with frequency 0, as `obs2code` gives them.
- AdjWeek.StepExact: times before the start of GPS time, and times of week beyond a week and the 14 seconds that Beidou's have on GPS, are excluded.
