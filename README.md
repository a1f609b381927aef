# flex-fsk-tx: POCSAG encoder and AT serial control, modelled in Dafny

flex-fsk-tx sends paging messages through a LoRa/FSK radio board. It talks
to the board over a serial line with AT commands. In the remote flow it
sends `AT+MSG=<capcode>` and then the message text, and the board encodes
the page itself. In the local flow it sends `AT+SEND=<size>` and then an
already encoded transmission, in 32-byte chunks. The repository also has a
single-header POCSAG encoder. It builds BCH(31,21) codewords with an even
parity bit, packs 7-bit text or 4-bit BCD digits into 20-bit message
words, places a SYNC word at the start of every batch and lays out a whole
transmission. The codeword layout follows ITU-R Recommendation M.584
(Annex 1).

The project models both parts.

**POCSAG encoder** (`include/pocsag/pocsag.h`):
- `codeword.dfy`: the CRC-10 as GF(2) long division, the parity bit,
  the codeword layout and the frame offset of an address.
- `packing.dfy`: the bit packing, the message words and SYNC interleaving
  that both message encoders share.
- `alphanumeric.dfy`, `numeric.dfy`: the two message encoders.
- `transmission.dfy`: the transmission layout and its encoder.
- `bytes.dfy`: big-endian byte serialisation and the preamble bytes.

Words are `bv32`. Every encoder is a method that fills an `array`. It is
proved equal to a function of its inputs, and the properties of the
encoder are lemmas about that function.

**Serial control** (`flex-fsk-tx.cpp`):
- `serial.dfy`: the serial line as a value with four parts:
  - the script of events the device produces (a poll error, an idle
    poll, a poll without input, a read error, an empty read, a byte);
  - the script of write results;
  - every byte written so far;
  - a millisecond clock.

  `Serial.Sleep` (`usleep`, `sleep`) moves only the clock on. `Serial.Write` appends to the wire
  what the next scripted write result allows.
- `at_response.dfy`: `at_read_response` as a state machine over those
  events.
- `at_command.dfy`: `at_execute_command` and `at_initialize_device`, the
  retry loops above it.
- `transfer.dfy`: the two send flows.
- `wrappers.dfy`: the `Option` type shared by the message encoder (a NULL pointer) and the line reader (end of input).
- `numbers.dfy`: `str2int`, `str2uint64`, and the decimal rendering
  that `printf` produces for the commands.
- `stdin.dfy`: `read_stdin_message`.

Every loop of the modelled functions is a `method` with a `while` loop. Its
specification is a recursive function of the port it starts from, and the
attempt bounds, result classification and wire contents are lemmas about
those functions. After its script of events runs out, the line is silent:
every poll is idle. This is why every reading loop terminates.

## Model

| member | source | states |
|---|---|---|
| Codeword.CrcOf | include/pocsag/pocsag.h:77-90 | the check bits are below 1024 |
| Codeword.Crc | include/pocsag/pocsag.h:77-90 | the division loop returns CrcOf; for a 21-bit input the 31-bit word [msg][crc] leaves remainder zero under the generator |
| Codeword.CrcUnique | include/pocsag/pocsag.h:77-90 | for a 21-bit body, the CRC is the one ten-bit value that makes [body][r] divisible by the generator (both directions) |
| Codeword.CrcDivides | include/pocsag/pocsag.h:77-90 | [body][CrcOf(body)] leaves remainder zero |
| Codeword.ReduceLowXor | include/pocsag/pocsag.h:81-87 | the long division is linear in the ten low bits of the dividend |
| Codeword.ReduceBelow | include/pocsag/pocsag.h:81-89 | every division step clears the bit it tests, so the remainder of a 31-bit dividend is below 2^10 |
| Codeword.ParityOf | include/pocsag/pocsag.h:98-105 | the xor of the low n bits is 0 or 1, and it is 1 exactly when an odd number of them are set |
| Codeword.FoldIsParity | include/pocsag/pocsag.h:98-105 | the loop's accumulator ends as its start value xor the parity of the bits read |
| Codeword.Parity | include/pocsag/pocsag.h:98-105 | the loop returns the xor of all 32 bits: 0 or 1, and 1 exactly for an odd count of set bits |
| Codeword.EncodeCodeword | include/pocsag/pocsag.h:115-119 | [21-bit body][10 check bits][parity]; its contract is stated by CodewordLayout, EncodedIsCodeword and CodewordUnique below |
| Codeword.CodewordLayout | include/pocsag/pocsag.h:115-119 | for a 21-bit body: bits 31..11 are the body, bits 10..1 the CRC, bit 0 the parity of the 31 bits above it |
| Codeword.CodewordEvenParity | include/pocsag/pocsag.h:115-119 | an encoded codeword has an even number of set bits |
| Codeword.CodewordParityZero | include/pocsag/pocsag.h:115-119 | the 32 bits of an encoded codeword xor to zero |
| Codeword.EncodedIsCodeword | include/pocsag/pocsag.h:115-119 | an encoded codeword passes both receiver checks: even parity and zero remainder |
| Codeword.ValidCheckBits | include/pocsag/pocsag.h:115-119 | a word whose top 31 bits divide evenly has the CRC of its own body as check bits |
| Codeword.CodewordUnique | include/pocsag/pocsag.h:115-119 | a valid codeword is the encoding of its body (the inverse of encoding) |
| Codeword.AddressOffset | include/pocsag/pocsag.h:134-136 | the offset is even, at most 14, and half of it is address & 7 |
| Packing.PackBound | include/pocsag/pocsag.h:168-175 | n bits shifted into a word leave it below 2^n |
| Packing.PackSnoc | include/pocsag/pocsag.h:169-175 | shifting one more bit in appends it to the packed bits |
| Packing.PackZeros | include/pocsag/pocsag.h:199 | shifting the partial word up by k is packing it followed by k zero bits |
| Packing.PaddedWord | include/pocsag/pocsag.h:199 | the shifted partial word is the packing of its bits followed by zeros |
| Packing.PadLength | include/pocsag/pocsag.h:197-199 | the fill is below 20 bits and brings the stream to whole words |
| Packing.PaddedLength | include/pocsag/pocsag.h:197-211 | a padded stream is ceil(len / 20) words long |
| Packing.WordsSnoc | include/pocsag/pocsag.h:177-183 | one more whole word of bits adds exactly its message codeword at the end |
| Packing.DataWordIsMessage | include/pocsag/pocsag.h:179 | every message codeword is a valid codeword with the message flag set, and never SYNC |
| Packing.WordsAreMessages | include/pocsag/pocsag.h:177-183 | all message codewords of a stream carry the message flag and differ from SYNC |
| Packing.PositionMod | include/pocsag/pocsag.h:185-192 | the batch position after n words is (offset + n) mod 16 |
| Packing.InterleaveLength | include/pocsag/pocsag.h:185-192 | the interleaved output has one SYNC word per sixteen words counted from the batch start |
| Packing.InterleaveWithoutSync | include/pocsag/pocsag.h:185-192 | removing the SYNC words gives back the message codewords |
| Packing.InterleaveMembers | include/pocsag/pocsag.h:185-192 | every output word is SYNC or one of the message codewords |
| Packing.SyncPlacement | include/pocsag/pocsag.h:185-192 | a word of the output is SYNC exactly when its position, counted from the batch's SYNC word, is a multiple of 17 |
| Packing.EmitStep | include/pocsag/pocsag.h:177-192 | one more whole word adds its codeword, then a SYNC word if it fills the batch; the batch position advances |
| Packing.OutputWithin | include/pocsag/pocsag.h:177-192 | the output for a prefix of the bits is no longer than the output for all of them |
| Packing.PushStep | include/pocsag/pocsag.h:168-175 | a bit that does not complete a word extends the pending bits and the pending word |
| Packing.CompleteStep | include/pocsag/pocsag.h:175-192 | the bit that completes a word writes its codeword and a SYNC word when due, within the final output |
| Packing.FinishStep | include/pocsag/pocsag.h:197-211 | the padded last word, with its SYNC word when due, completes the output |
| Packing.EmitWord | include/pocsag/pocsag.h:179-192 | writes the codeword of the word with the message flag, then SYNC on a full batch; the position advances modulo 16 |
| Packing.WriteWord | include/pocsag/pocsag.h:188-190 | writes one word just after those already written and nothing else |
| Packing.PushBit | include/pocsag/pocsag.h:168-193 | one bit of the loop: the encoder state stays consistent with the bits read and the words written |
| Alphanumeric.CharBitOrder | include/pocsag/pocsag.h:168-174 | LSB-first sends bit i of the character as its i-th bit; MSB-first sends the bits in reverse order |
| Alphanumeric.Padded | include/pocsag/pocsag.h:197-199 | the padded stream is whole words and starts with the character bits |
| Alphanumeric.AsciiWordCount | include/pocsag/pocsag.h:158-214 | ceil(7 * len / 20) message codewords |
| Alphanumeric.AsciiOutputShape | include/pocsag/pocsag.h:158-214 | the count is the message codewords plus one SYNC per filled batch; SYNC sits exactly at batch starts; every other word is a message codeword; removing the SYNC words gives the message codewords |
| Alphanumeric.EncodeChar | include/pocsag/pocsag.h:164-195 | the seven bits of one character keep the encoder consistent with the characters read |
| Alphanumeric.EncodeAscii | include/pocsag/pocsag.h:158-214 | writes exactly the specified output into out from index at and returns its length |
| Alphanumeric.FinishAscii | include/pocsag/pocsag.h:197-211 | the final partial word is shifted up, zero filled and written; the output is complete |
| Alphanumeric.AsciiLastWord | include/pocsag/pocsag.h:197-211 | with a partial word pending, its padded codeword and a SYNC word when due end the output |
| Alphanumeric.AsciiNoPartial | include/pocsag/pocsag.h:197-198 | with no partial word pending, the output is complete |
| Alphanumeric.LastWord | include/pocsag/pocsag.h:199 | the 20 - numBits zero bits are exactly the padding of the stream |
| Numeric.CharToBcd | include/pocsag/pocsag.h:225-235 | every code is at most 0xF |
| Numeric.DigitCode | include/pocsag/pocsag.h:226 | the digits 0 to 9 get their value as code |
| Numeric.BcdRoundTrip | include/pocsag/pocsag.h:225-235 | every code other than 0xF is the code of the character BcdChar names |
| Numeric.ReservedCode | include/pocsag/pocsag.h:225-235 | 0xF is given exactly to the characters outside the numeric set (both directions) |
| Numeric.BcdDecodes | include/pocsag/pocsag.h:225-235 | the table decodes a numeric character to itself as shown: space A, U or u B, - C, [ or ( D, ] or ) E |
| Numeric.DigitBitOrder | include/pocsag/pocsag.h:258-261 | the code is sent as its bits 0 to 3, in that order |
| Numeric.PadBits | include/pocsag/pocsag.h:285-291 | the padding code 0xC is sent as 0, 0, 1, 1 |
| Numeric.FillPattern | include/pocsag/pocsag.h:286-292 | every padding bit is 1 exactly at positions 2 and 3 of its nibble, so no padding nibble is zero |
| Numeric.NumericBits | include/pocsag/pocsag.h:281-292 | the padded stream is whole words and starts with the digit stream |
| Numeric.NumericPadding | include/pocsag/pocsag.h:281-292 | a partial last word is filled with fewer than five whole 0xC nibbles; a stream of whole words gets none |
| Numeric.NumericWordCount | include/pocsag/pocsag.h:248-307 | ceil(4 * len / 20) message codewords |
| Numeric.NumericOutputShape | include/pocsag/pocsag.h:248-307 | the count is the message codewords plus one SYNC per filled batch; SYNC sits exactly at batch starts; every other word is a message codeword; removing the SYNC words gives the message codewords |
| Numeric.EncodeDigit | include/pocsag/pocsag.h:254-279 | the four bits of one code keep the encoder consistent with the characters read |
| Numeric.EncodeNumeric | include/pocsag/pocsag.h:248-307 | writes exactly the specified output into out from index at and returns its length |
| Numeric.PadWord | include/pocsag/pocsag.h:284-292 | the padding loops shift in the given number of 0xC nibbles below the pending bits |
| Numeric.PadNibble | include/pocsag/pocsag.h:288-291 | one padding nibble is shifted in as the bits of 0xC |
| Numeric.NibblesLeft | include/pocsag/pocsag.h:284 | (20 - numBits) / 4 nibbles fill the partial word exactly |
| Numeric.FinishNumeric | include/pocsag/pocsag.h:281-304 | the final partial word is padded with 0xC nibbles and written; the output is complete |
| Numeric.NumericLastWord | include/pocsag/pocsag.h:281-304 | with a partial word pending, its padded codeword and a SYNC word when due end the output |
| Numeric.NumericNoPartial | include/pocsag/pocsag.h:281 | with no partial word pending, the output is complete |
| Transmission.Preamble | include/pocsag/pocsag.h:339-344 | 18 preamble words on the first repeat, none otherwise |
| Transmission.MessageOffset | include/pocsag/pocsag.h:353-375 | the batch position of the first message word is inside the batch |
| Transmission.OffsetValue | include/pocsag/pocsag.h:371-375 | the encoders start at prefix_length + 1 |
| Transmission.Content | include/pocsag/pocsag.h:346-381 | the content from SYNC to the end-of-message IDLE has prefix + 3 + message words |
| Transmission.PaddingLength | include/pocsag/pocsag.h:385-386 | the padding is between 1 and 17 IDLE words |
| Transmission.RoundUp | include/pocsag/pocsag.h:385-386 | the padding rounds up to the next multiple of 17, adding a whole batch when already aligned |
| Transmission.PreambleIffFirst | include/pocsag/pocsag.h:338-344 | the transmission starts with 18 words of 0xAAAAAAAA exactly when repeatIndex is 0 |
| Transmission.BatchMultiple | include/pocsag/pocsag.h:383-392 | after the preamble the length is a positive multiple of 17; aligned content gets a full extra batch |
| Transmission.ContentLayout | include/pocsag/pocsag.h:346-381 | SYNC, the offset IDLE words, the address codeword, the message words, IDLE |
| Transmission.LayoutWords | include/pocsag/pocsag.h:338-392 | the same layout after the preamble, followed by nothing but IDLE words |
| Transmission.EndsWithIdle | include/pocsag/pocsag.h:379-392 | the last word is IDLE |
| Transmission.TransmissionLayout | include/pocsag/pocsag.h:333-395 | the whole layout word by word, with its length, for any address, function and message |
| Transmission.ToneTransmission | include/pocsag/pocsag.h:365-368 | a tone page has no message words and is one batch, or two when the address is in frame 7 |
| Transmission.MessageSyncs | include/pocsag/pocsag.h:365-377 | a message word is SYNC exactly at the batch starts counted from the message offset |
| Transmission.MessageSyncAligned | include/pocsag/pocsag.h:346-377 | within the message, a word is SYNC exactly when its distance from the first SYNC is a multiple of 17 |
| Transmission.LayoutSyncs | include/pocsag/pocsag.h:346-377 | SYNC words placed by batch position in the message stay aligned in the transmission |
| Transmission.AddressFields | include/pocsag/pocsag.h:359-362 | for a 21-bit address the address codeword is valid, has the message flag clear, and carries address >> 3 and function & 3 |
| Transmission.BodyFields | include/pocsag/pocsag.h:361 | the address body fits 21 bits, has the flag clear, and carries address >> 3 and function & 3 |
| Transmission.WriteRun | include/pocsag/pocsag.h:340-343 | writes n copies of a word after those already written |
| Transmission.WriteHeader | include/pocsag/pocsag.h:338-363 | writes the preamble on the first repeat, SYNC, the offset IDLE words and the address codeword |
| Transmission.WriteMessage | include/pocsag/pocsag.h:365-377 | writes nothing for a tone page, numeric words for function 1 and text words otherwise |
| Transmission.WriteTrailer | include/pocsag/pocsag.h:379-392 | writes the IDLE marker and IDLE padding up to the batch boundary counted from the first SYNC |
| Transmission.WriteFront | include/pocsag/pocsag.h:338-377 | writes the header and the message words from index 0 and reports where the first batch starts |
| Transmission.TransmissionParts | include/pocsag/pocsag.h:338-392 | for the encoder's header, the transmission is that header, the message words, the IDLE marker and the padding |
| Transmission.LayoutParts | include/pocsag/pocsag.h:338-392 | the transmission is the header, the message and the trailer exactly as the encoder writes them |
| Transmission.EncodeTransmission | include/pocsag/pocsag.h:333-395 | fills out from index 0 with the transmission and returns its length |
| Transmission.EncodeMessage | include/pocsag/pocsag.h:412-415 | a missing message or buffer gives 0 and writes nothing; otherwise a first-repeat alphanumeric transmission |
| Bytes.WordBytes | include/pocsag/pocsag.h:434-438 | four bytes per word |
| Bytes.WordRoundTrip | include/pocsag/pocsag.h:434-438 | reassembling a word's four bytes, most significant first, gives the word back |
| Bytes.BytesRoundTrip | include/pocsag/pocsag.h:434-438 | every four bytes are the bytes of exactly one word |
| Bytes.BytesAt | include/pocsag/pocsag.h:432-441 | bytes 4i to 4i+3 are word i, big-endian |
| Bytes.RoundTrip | include/pocsag/pocsag.h:432-441 | the words can be read back from their bytes |
| Bytes.WordsToBytes | include/pocsag/pocsag.h:432-441 | returns 4 * n; the first 4 * n bytes are the bytes of the first n words; the rest is unchanged |
| Bytes.PutWord | include/pocsag/pocsag.h:434-438 | writes the four bytes of one word at its place and nothing else |
| Bytes.PreambleBytes | include/pocsag/pocsag.h:452-457 | 72 bytes, all 0xAA |
| Bytes.GeneratePreamble | include/pocsag/pocsag.h:452-457 | writes 72 bytes of 0xAA at the front, leaves the rest, returns 72 |
| Bytes.PreambleWordsAreBytes | include/pocsag/pocsag.h:338-344 | the 18 preamble words serialise to the 72 preamble bytes |
| Numbers.Decimal | flex-fsk-tx.cpp:526 | the rendering of a number is a nonempty run of digits |
| Numbers.DecimalValue | flex-fsk-tx.cpp:526 | reading a rendering back gives the number |
| Numbers.Str2Int | flex-fsk-tx.cpp:104-122 | status 0 or -1; -1 leaves out unchanged; a stored value is within the int range |
| Numbers.Str2IntDecimal | flex-fsk-tx.cpp:104-122 | every int is accepted from its rendering, with a minus sign when negative |
| Numbers.Str2IntRange | flex-fsk-tx.cpp:111-116 | a magnitude beyond the int range is rejected and out is unchanged |
| Numbers.Str2Uint64 | flex-fsk-tx.cpp:127-144 | status 0 or -1; -1 leaves out unchanged; a stored value fits 64 bits |
| Numbers.Str2Uint64Decimal | flex-fsk-tx.cpp:127-144 | every 64-bit value is accepted from its rendering |
| Numbers.TrailingRejected | flex-fsk-tx.cpp:117-118 | both parsers reject a string ending in a non-digit and leave out unchanged |
| StdinInput.Stripped | flex-fsk-tx.cpp:792-795 | the line stays as it is or loses exactly one trailing newline |
| StdinInput.ColonFrom | flex-fsk-tx.cpp:797 | finds the first ':' before any NUL, and finds none only when every ':' comes after a NUL |
| StdinInput.ColonAt | flex-fsk-tx.cpp:797 | a ':' preceded by no ':' and no NUL is the one found |
| StdinInput.OutcomeShape | flex-fsk-tx.cpp:780-822 | 1 exactly at end of input, else 0 or 2; a delivered message is shorter than the buffer and the capcode fits 64 bits |
| StdinInput.ParseLineRoundTrip | flex-fsk-tx.cpp:780-822 | a line capcode:message, with or without its newline, reads back as that capcode and message |
| StdinInput.TooLongKeepsCapcode | flex-fsk-tx.cpp:806-819 | a too long message gives 2, but the capcode has already been stored |
| StdinInput.NoColonRejected | flex-fsk-tx.cpp:797-803 | a line without ':' gives 2 and leaves the capcode alone |
| StdinInput.ReadStdinMessage | flex-fsk-tx.cpp:780-822 | returns the status and capcode of ParseLine; on success copies the message and its NUL to the buffer front and leaves the rest; otherwise the buffer is unchanged |
| Serial.Next | flex-fsk-tx.cpp:274-293 | a poll consumes at most one scripted event: the event returned followed by the rest is the script before, writes, wire and clock are unchanged, and a silent line yields an idle poll and no change |
| Serial.Write | flex-fsk-tx.cpp:242 | -1 puts nothing on the line; otherwise it takes at most the bytes offered and appends exactly those to the line |
| AtResponse.ReadResponse | flex-fsk-tx.cpp:255-372 | the polling loop returns the reply Run specifies |
| AtResponse.OnEventValid | flex-fsk-tx.cpp:269-304 | a poll or read keeps the loop's variables valid |
| AtResponse.OnByteValid | flex-fsk-tx.cpp:306-364 | a byte keeps the line printable and at most 1023 bytes long, and the kept line a '+' line that fits |
| AtResponse.RunShape | flex-fsk-tx.cpp:255-372 | the buffer is empty or a '+' line shorter than buffer_size; Data only with a kept line, Timeout only without one; the port only loses input |
| AtResponse.RunReplyShape | flex-fsk-tx.cpp:255-372 | the buffer is empty or a '+' line shorter than buffer_size; Data only with a kept line, Timeout only without one |
| AtResponse.RunPortShape | flex-fsk-tx.cpp:269-304 | reading only consumes input events: what is left is a suffix of the script and nothing else about the port changes |
| AtResponse.RunEnd | flex-fsk-tx.cpp:274-330 | Invalid exactly when the last event was a failed poll or read; Ok and Error only right after a line feed |
| AtResponse.ByteBudget | flex-fsk-tx.cpp:306-364 | every byte clears the empty-read count; every byte but CR and a blank line's LF restores the full budget |
| AtResponse.SilentEnd | flex-fsk-tx.cpp:269-285 | with no more input the loop ends after the empty reads still allowed, with Data or Timeout as a line was kept or not |
| AtResponse.SilentTimeout | flex-fsk-tx.cpp:255-372 | with nothing from the device the reply is Timeout with an empty buffer |
| AtResponse.PrintableStep | flex-fsk-tx.cpp:351-354 | a printable byte that fits is appended to the line and restores the budget |
| AtResponse.OtherByteStep | flex-fsk-tx.cpp:355-364 | a control byte (below 0x20 or from 0x80) discards the line; 0x7F and a printable byte that no longer fits are dropped |
| AtResponse.ReadPrintable | flex-fsk-tx.cpp:351-354 | a run of printable bytes that fits is appended to the line |
| AtResponse.ReadLine | flex-fsk-tx.cpp:313-315 | a complete line is read up to its line feed |
| AtResponse.OkLine | flex-fsk-tx.cpp:325-327 | a complete "OK" line returns Ok with the line kept before it |
| AtResponse.ErrorLine | flex-fsk-tx.cpp:328-330 | a complete "ERROR" line returns Error with the line kept before it |
| AtResponse.PlusLine | flex-fsk-tx.cpp:331-338 | a '+' line shorter than buffer_size replaces the kept line and reading goes on |
| AtResponse.OtherLine | flex-fsk-tx.cpp:339-349 | any other line, or a '+' line too long for the buffer, is dropped and the kept line stays |
| AtResponse.LastPlusLineWins | flex-fsk-tx.cpp:331-338 | two '+' lines then "OK": the reply is Ok and holds the second line |
| AtCommand.SendCommand | flex-fsk-tx.cpp:238-250 | 0 exactly when the write succeeded, -1 otherwise; no input is consumed |
| AtCommand.ExecuteCommand | flex-fsk-tx.cpp:377-430 | the retry loop returns the status, response and port Exec specifies |
| AtCommand.ExecTrace | flex-fsk-tx.cpp:380-430 | 1 to 5 attempts; every reply before the last asked for a retry; 0 exactly when the last attempt read OK; an early -1 only after a failed write or a Data reply |
| AtCommand.AttemptTrace | flex-fsk-tx.cpp:382-427 | the same for the loop from one attempt on |
| AtCommand.OnReplyTrace | flex-fsk-tx.cpp:392-426 | the same for the handling of one reply and the attempts after it |
| AtCommand.ExecWriteFails | flex-fsk-tx.cpp:386-388 | a failed write ends at once with -1, one attempt, the buffer untouched |
| AtCommand.ExecSilent | flex-fsk-tx.cpp:403-415 | against a silent device every attempt times out and the command fails after all its attempts |
| AtCommand.InitializeDevice | flex-fsk-tx.cpp:435-471 | the handshake returns the status and port Init specifies |
| AtCommand.CommunicationRound | flex-fsk-tx.cpp:446-467 | one round: it ends the handshake with 0 when both AT commands succeed, else the next round follows |
| AtCommand.InitTrace | flex-fsk-tx.cpp:446-470 | at most ten rounds; 0 exactly when the last round confirmed; -1 only after ten unconfirmed rounds |
| AtCommand.RoundConfirms | flex-fsk-tx.cpp:454-463 | a round confirms exactly when both of its AT commands succeed |
| Transfer.Configure | flex-fsk-tx.cpp:487-510 | the configuration steps return the status and port of Configured, which ConfiguredConfirms, MailDropLast and ConfiguredSilent characterise |
| Transfer.ConfiguredConfirms | flex-fsk-tx.cpp:487-510 | configuration succeeds exactly when the frequency, power and (if asked for) mail-drop commands each end on "OK"; an unconfirmed frequency or power command ends it with the port as that command left it |
| Transfer.MailDropLast | flex-fsk-tx.cpp:503-509 | asking for mail drop never turns a failed configuration into a success, and when configuration fails before it, "AT+MAILDROP=1" is never sent |
| Transfer.ConfiguredSilent | flex-fsk-tx.cpp:487-494 | with a silent device, configuration fails on the frequency command after all five of its attempts time out, and sends no later command |
| Transfer.WaitCompletion | flex-fsk-tx.cpp:587-614 | the completion wait returns what Wait specifies |
| Transfer.WaitBound | flex-fsk-tx.cpp:592-614 | at least one and at most ceil(remaining / 1000) steps; the port only loses input |
| Transfer.WaitSteps | flex-fsk-tx.cpp:592-614 | the remote completion wait runs 1 to 35 one-second steps |
| Transfer.WaitSilent | flex-fsk-tx.cpp:595-614 | a silent device never completes the wait |
| Transfer.PushData | flex-fsk-tx.cpp:707-736 | the chunk loop returns what Push specifies |
| Transfer.PushShape | flex-fsk-tx.cpp:713-736 | bytes_sent stays at most size, equals it on success, and no input is read |
| Transfer.PushWire | flex-fsk-tx.cpp:713-736 | the bytes that go out are exactly the data up to bytes_sent, in order |
| Transfer.ChunkWire | flex-fsk-tx.cpp:714-723 | one write, full or short, extends the line by the next bytes of the data |
| Transfer.PushChunks | flex-fsk-tx.cpp:714 | every chunk offered is 1 to 32 bytes |
| Transfer.TryRemote | flex-fsk-tx.cpp:518-614 | one attempt of the remote flow is the one RemoteTry specifies |
| Transfer.TryLocal | flex-fsk-tx.cpp:666-757 | one attempt of the local flow is the one LocalTry specifies |
| Transfer.RemoteRound | flex-fsk-tx.cpp:515-628 | one pass of the remote attempt loop: it ends the flow as specified, or another attempt is left |
| Transfer.LocalRound | flex-fsk-tx.cpp:663-767 | one pass of the local attempt loop: it ends the flow as specified, or another attempt is left |
| Transfer.SendRemote | flex-fsk-tx.cpp:480-632 | at_send_flex_message_remote returns the status and port Send specifies |
| Transfer.SendLocal | flex-fsk-tx.cpp:637-771 | at_send_flex_message_local returns the status and port Send specifies |
| Transfer.SendFromTrace | flex-fsk-tx.cpp:515-631 | 1 to the allowed attempts; 0 exactly when the last completed, all earlier failed; -1 only after all attempts |
| Transfer.SendAttemptTrace | flex-fsk-tx.cpp:515-628 | the same from one attempt on |
| Transfer.SendTrace | flex-fsk-tx.cpp:480-632 | a flow fails in the configuration before any attempt, or makes 1 to 3 attempts as SendFromTrace states |
| Transfer.ReadyBeforeData | flex-fsk-tx.cpp:543-555 | nothing goes out after the opening command unless its write succeeded and the reply was Data containing the READY marker |
| Transfer.LocalDataOnWire | flex-fsk-tx.cpp:705-766 | a completed local attempt put every data byte on the line after the READY reply, in order and once, and nothing else |
| Transfer.RemoteTextOnWire | flex-fsk-tx.cpp:557-583 | a completed remote attempt with full writes put the message and CR LF on the line after the READY reply, and nothing else |
| Transfer.CommandRoundTrip | flex-fsk-tx.cpp:526 | the opening command is its prefix, the number and CR LF, and str2uint64 reads the number back |
| Transfer.PowerRoundTrip | flex-fsk-tx.cpp:497 | the power command carries the power in decimal, and str2int reads it back |

## Left out

- Logging (`printf`, `fprintf`, `perror`, the progress percentages) is left out: it has no effect on results.
- `configure_serial`, `restore_tty`, signal handling, `usage`, `read_params` and `main` are left out: they are terminal setup and command-line glue.
- `flush_serial_buffers` and `tcdrain` do nothing in the model. The event script is what arrives after each flush, and the flush's own sleeps are not on the clock.
- Sleeps only advance the millisecond clock, and polls do not advance it. `time(NULL)` is the clock in whole seconds. Real time is not modelled.
- The `AT+FREQ=%.4f` command is a parameter (`Settings.freqCommand`) because floating-point formatting is not modelled.
- `strtol` and `strtoull` are plain decimal parsing: one optional sign, then digits, with no leading white space. `errno` is not modelled.
- C strings are byte sequences, and the model does not require a terminating NUL. A sequence holds the bytes before the NUL, so the messages given to EncodeAscii, EncodeNumeric and `Job.Remote` are assumed free of 0x00 bytes: a 0x00 inside the sequence would be encoded by the model but never by the program, whose loops stop at the first NUL. Only `getline`'s line may hold a NUL, and `strchr` stops at it, as the model does.
- `at_read_response`'s `data_buffer` argument is left out, because every caller passes NULL. The caller's buffer is a returned sequence. Its contents before a read do not matter, because the read clears it first.
- The reset `AT` command of the send flows passes an empty buffer to `at_execute_command`. Its response is never read.
- The flows' `response` and `command` locals are not modelled as arrays.
- A C `char` is taken as signed, so every byte from 0x80 up counts as a control byte that resets the line.
- Transfer.RemoteTextOnWire: only holds when the message and terminator writes are taken in full. The source ignores short writes in the remote flow and the model does the same.
- `tf_encode_flex_message_ex` is not modelled: it is a foreign FLEX encoder. `MAX_CHARS_ALPHA` is the parameter `maxChars` of `read_stdin_message`.
- `getline` is a parameter: the line it returns, or `None` at end of input.
- `include/boards/boards.h` is not part of this model: it holds only pin constants.
- Transmission.AddressFields: holds only for 21-bit addresses. Above 2^21, the body bits spill over the flag bit, as in the source.
- Every function code other than 0 and 1 is encoded as text, as in the source. This includes codes of 4 and up, whose high bits are then dropped from the address codeword.
- Three behaviours of the reply handling are modelled as the code has them:
  - a later '+' line overwrites the kept one, so the last such line wins (flex-fsk-tx.cpp:331-338);
  - a CR, and the LF of a blank line, do not restore the timeout budget (flex-fsk-tx.cpp:308-320 and 363-364);
  - a Data reply ends `at_execute_command` with -1 without a retry (flex-fsk-tx.cpp:392-394 and 424-425).
