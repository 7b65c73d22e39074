# Proxmark3 firmware and translation script: verified models

This project models the protocol codecs, state machines and buffers of the firmware under `src/armsrc` and the
C-literal rewriter `apply_all.py`, and proves what they are for. `dafny verify dfyconfig.toml` checks all of it.

## How the model is built

* An object or a set of static variables that the source updates in place is a class with those fields; a loop of the
  source is a loop. Each such method is proved against a specification on values (a bit-level reader, a waveform and
  its falling edges, a chain of blocks, a sequence of tokens, a pair of communicating machines), and the properties
  are proved about that specification.
* Machine bytes and words are natural numbers below 256, 2^16 or 2^32, and shifts and masks are arithmetic on them
  (`Bits.dfy`); their bits are sequences of booleans, so a protocol's claims are about bits and not about encodings.
* Hardware registers become a line. A sender drives levels for a number of timer ticks; a receiver sees the times
  between edges (`Waveform.dfy`), each off by a stated tolerance. Pulse lengths past the end of what was sent, button
  presses and lost fields are inputs.
* Block ciphers are any function from blocks to blocks; the Hitag 2 cipher is any start, next-state and output
  function; LZ4 is whatever its blocks decompress to; the CRC routine, the format-specifier finder and the translation
  dictionary are parameters.

| file | source | about |
|---|---|---|
| `Felica.dfy` | `src/armsrc/felica.c` | deframer for ISO/IEC 18092, section 11.2.2 |
| `HitagLine.dfy` | `src/armsrc/hitag_common.c` | line codecs in both directions |
| `Hitag2.dfy`, `Hitag2Air.dfy` | `src/armsrc/hitag2.c` | reader and tag, password and crypto mode, read and write; what they put on air |
| `Em4x50Word.dfy`, `Em4x50Line.dfy`, `Em4x50Sim.dfy` | `src/armsrc/em4x50.c` | parity code, line codec, tag simulator |
| `Em4x70.dfy` | `src/armsrc/em4x70.c` | edge-switching receiver |
| `Cbc.dfy`, `Cmac.dfy`, `Desfire.dfy` | `desfire_crypto.c`, `cmac_calc.c`, `cmac_3des.c` | chaining, and NIST SP 800-38B, sections 6.1 and 6.2, three times |
| `Rewriter.dfy` | `apply_all.py` | token structure of the rewritten source |
| `BigBuf.dfy` | `src/armsrc/BigBuf.c` | allocator and trace log |
| `Frozen.dfy`, `FrozenText.dfy` | `src/armsrc/frozen.c` | JSON walker, and the documents it reads |
| `Fpga.dfy` | `src/armsrc/fpgaloader.c` | de-interleaver, with the tool that interleaves |

## What the code turned out to do

* FeliCa: for length byte 1 the receiver needs one byte more than the frame has; a frame whose last bit has just arrived
  is complete exactly for the other lengths (`Felica.LengthOneOverreads`).
* Hitag: with `sof_bits` 4 the sender sends 1110 and the receiver strips three bits, so one 0 stays in front of every
  frame (`HitagLine.TagToReader` says so). The code violation of the Hitag µ SOF is exactly as long as the stop limit, so
  it has no tolerance downwards: any shorter, the tag takes it for a 1 and has two bits too many in front of the frame, and
  never otherwise (`HitagLine.ReaderToTag`). In the Manchester modulations a pulse of two bits can set a bit behind a full
  receive buffer, in the anticollision ones nothing can (`HitagLine.BufferSuffices`).
* Hitag 2: a tag whose write command was never followed by data takes the next password for the page's contents
  (`Hitag2.WrongSecret`, `Hitag2.PasswordDecides`). The reader's code for pages that cannot be read would recover the key's
  pages (`Hitag2.UnreadablePages`), but the loop around it gives up at the first silence (`Hitag2.UnreadableFails`).
* EM4x50: half bits of 33 and 31 cycles leave exactly seven cycles of jitter, not eight (`Em4x50Line.SimulatorSlack`). The
  write-protected range comes from the two bytes of the read-protected range, against the comments beside it
  (`Em4x50Sim.WriteRangeIsReadRange`). The simulator compares row parities and ignores the outcome
  (`Em4x50Word.RowParityIgnored`). The simulator runs when serial number and identity differ, against the comment there
  (`Em4x50Sim.TagSim.Start`). It does not check the address of a write, which can lie behind its array. What it sends
  right after a write has its bits reversed against every later read, and the bit that asks for it is bit 8 of the control
  word, not one of its third byte (`Em4x50Sim.EchoReversed`).
* Trace log: a duration across a wrap of the clock is one tick short, and two equal timestamps log the cap
  (`BigBuf.DurationExact`). The limit of the trace is kept on 16 bits: with 64 KiB or more free it is the rest modulo 2^16
  (`BigBuf.Buffer.LogTrace`).
* JSON walker: commas are optional everywhere and one may stand before a closing bracket; the grammar of the model says
  so. Nothing is reported at a path that ends in a dot. That keeps keys from the callback, and also the value of a key that
  is empty or ends in a dot; and when the path has no room left for the dot, keys are reported as strings
  (`Frozen.KeyReported`, `Frozen.MemberReported`).
* Rewriter: a dictionary entry is looked up by the literal's raw inside, escapes included, but its translation is
  taken as plain text and escaped; the theorems hold for every text, well-formed or not.

## Model

| member | source | states |
|---|---|---|
| `Felica.FrameReceived` | src/armsrc/felica.c:148-257 | For every frame, with any length byte from 1 on, every preamble length (so every bit alignment) and both polarities, the bit-level reader is full after n received bytes if and only if the last frame bit is among them (for length byte 1, the byte behind it), and then holds the bytes sent |
| `Felica.ReceiveFrame` | src/armsrc/felica.c:134-257 | The receiver fed such a line stops on the byte that carries the last frame bit, for length byte 1 on the next; its buffer then starts with exactly the frame, and `crcOk` is the verdict of the CRC routine on the bytes after SYNC |
| `Felica.FelicaFrame.Process18092Byte` | src/armsrc/felica.c:148-257 | One received byte keeps the registers, counters, state and buffer in agreement with the bit-level reader of everything heard; every buffer index stays inside the 260 bytes |
| `Felica.FelicaFrame.TrySync` | src/armsrc/felica.c:164-213 | The search over the eight bit positions of a byte ends at the first position where the last 16 bits are SYNC or its complement, and sorts the rest of the byte into the buffer |
| `Felica.FelicaFrame.Collect` | src/armsrc/felica.c:214-252 | In the three collecting states a byte is stored across the byte boundary, with its polarity undone |
| `Felica.FelicaFrame.ShiftInByte` | src/armsrc/felica.c:134-146 | A received byte is split over two buffer bytes at the bit offset, first bit received highest |
| `Felica.FelicaFrame.ReadLength` | src/armsrc/felica.c:214-228 | A length byte that is zero or too long for the buffer drops the frame |
| `Felica.FelicaFrame.ReadData` | src/armsrc/felica.c:229-239 | Data bytes are counted down to the CRC |
| `Felica.FelicaFrame.ReadCrc` | src/armsrc/felica.c:240-252 | Two CRC bytes complete the frame |
| `Felica.FelicaFrame.Reset` | src/armsrc/felica.c:117-127 | A reset forgets everything heard |
| `Felica.Receive` | src/armsrc/felica.c:148-257 | For any bytes whatsoever the receiver is full after the first byte that makes the bit-level reader full, not before |
| `Felica.RegistersFindSync` | src/armsrc/felica.c:164-213 | The two 16-bit shift registers show SYNC exactly when the last sixteen bits heard are SYNC or its complement |
| `Felica.RegisterShowsSync` | src/armsrc/felica.c:152-175 | A register filled from zero shows SYNC only when sixteen real bits are SYNC: the zero fill never matches early |
| `Felica.SyncEndIsFirst` | src/armsrc/felica.c:152-213 | The search ends at a position if and only if the code or its complement ends there and nowhere earlier |
| `Felica.NoEarlyMatch` | src/armsrc/felica.c:152-213 | Behind a zero preamble of any length no bit position before the end of the code matches, in either polarity |
| `Felica.FirstMatch` | src/armsrc/felica.c:164-213 | Behind a zero preamble the first match is the end of the code, and it tells the polarity |
| `Felica.BeforeSync` | src/armsrc/felica.c:152-213 | Until the code has ended the reader keeps searching |
| `Felica.AfterSync` | src/armsrc/felica.c:214-252 | From the end of the code on the reader's bytes are the bytes of the frame, and it is full exactly when enough bits have come |
| `Felica.StoreByte` | src/armsrc/felica.c:134-146 | Shifting one more byte in keeps the buffer equal to the frame bytes heard so far and the first bits of the next |
| `Felica.LengthOneOverreads` | src/armsrc/felica.c:214-252 | When the last bit of a frame has just arrived, in any alignment and polarity, the receiver is full if and only if the length byte is not 1 |
| `Felica.ZeroLengthDropped` | src/armsrc/felica.c:214-228 | A frame with length byte 0 is dropped with the byte that completes its length, in any alignment and polarity: whatever follows is received as if nothing had come before |
| `HitagLine.TagToReader` | src/armsrc/hitag_common.c:188-348 | For AC2K, AC4K, MC4K and MC8K, SOF lengths 1..6 and every non-empty frame that fits, the decoder recovers the frame from the falling edges of the sender's waveform, every time off by up to the tolerance; with a four-bit SOF one SOF bit is left in front of the frame |
| `HitagLine.FrameThenNoise` | src/armsrc/hitag_common.c:209-348 | Whatever is on the line more than 80 periods behind a frame is not taken for a part of it |
| `HitagLine.Timeout` | src/armsrc/hitag_common.c:209-348 | An edge more than 80 periods after the one before ends a reception that has begun, one after 750 periods any, and so do a full buffer and more than a hundred errors; every other edge is decoded |
| `HitagLine.EdgeMeaning` | src/armsrc/hitag_common.c:233-299 | What a time between falling edges is taken for, in ticks and periods, at both speeds; what is too short is an error |
| `HitagLine.TagShapes` | src/armsrc/hitag_common.c:351-539 | The waveforms of bits, lead-in and start of frame in the four modulations, in ticks |
| `HitagLine.ReaderShapes` | src/armsrc/hitag_common.c:122-186 | The pulses of a bit and of the Hitag µ start of frame, in ticks |
| `HitagLine.TagMeaning` | src/armsrc/hitag_common.c:447-503 | What the tag makes of a pulse length: end or restart, 1, 0, nothing |
| `HitagLine.ReaderReceiveFrame` | src/armsrc/hitag_common.c:188-348 | The receive loop fills its buffer with what the edge decoder makes of the times between falling edges, for any times whose bits fit the buffer; every index then stays inside |
| `HitagLine.BufferSuffices` | src/armsrc/hitag_common.c:240-344 | A receive buffer of whatever size suffices for every sequence of edges if and only if the modulation is an anticollision one; in the Manchester ones a pulse of two bits can reach past the end |
| `HitagLine.RunFits` | src/armsrc/hitag_common.c:240-344 | That is at most one bit past the end |
| `HitagLine.RoomForEdge` | src/armsrc/hitag_common.c:240-299 | No edge adds more than there is room for if what is delivered in the end fits |
| `HitagLine.DecodeEdge` | src/armsrc/hitag_common.c:240-299 | One edge adds to the buffer the bits, and leaves the `lastbit` and `bSkip`, of the decoding step |
| `HitagLine.SofLength` | src/armsrc/hitag_common.c:302-314 | How many bits are stripped: three instead of four when the Hitag µ pattern is seen |
| `HitagLine.RxBuffer.StripSof` | src/armsrc/hitag_common.c:316-321 | Stripping the SOF shifts the remaining bits to the front and clears the others |
| `HitagLine.RxBuffer.AddBit` | src/armsrc/hitag_common.c:241-294 | A received bit goes behind the bits already in the buffer |
| `HitagLine.Line.TagSendBit` | src/armsrc/hitag_common.c:351-445 | The level changes of one bit in each modulation |
| `HitagLine.Line.TagSendSof` | src/armsrc/hitag_common.c:523-531 | The start of frame: ones, or 1110 for four bits |
| `HitagLine.Line.TagSendFrame` | src/armsrc/hitag_common.c:505-539 | The waveform of a whole frame: lead-in, start of frame, content |
| `HitagLine.ManchesterMid` | src/armsrc/hitag_common.c:351-445 | The falling edges of Manchester bits seen from an edge in mid-bit |
| `HitagLine.ManchesterEdge` | src/armsrc/hitag_common.c:351-445 | The falling edges of Manchester bits seen from an edge on a bit boundary |
| `HitagLine.AnticollisionFalls` | src/armsrc/hitag_common.c:351-445 | The falling edges of anticollision bits in their three phases |
| `HitagLine.MidRun` | src/armsrc/hitag_common.c:268-299 | The Manchester decoder in step after an edge in mid-bit decodes the rest of the frame |
| `HitagLine.EdgeRun` | src/armsrc/hitag_common.c:268-299 | The Manchester decoder in step after an edge on a bit boundary decodes the rest of the frame |
| `HitagLine.FirstRun` | src/armsrc/hitag_common.c:241-267 | The anticollision decoder with an edge behind the first of two edges of a 1 decodes the rest of the frame |
| `HitagLine.SecondRun` | src/armsrc/hitag_common.c:241-267 | The anticollision decoder behind the second edge of a 1 decodes the rest of the frame |
| `HitagLine.ZeroRun` | src/armsrc/hitag_common.c:241-267 | The anticollision decoder behind the edge of a 0 decodes the rest of the frame |
| `HitagLine.StripSent` | src/armsrc/hitag_common.c:301-324 | Stripping the SOF the sender sent leaves the frame |
| `HitagLine.ReaderToTag` | src/armsrc/hitag_common.c:447-503 | From an idle line the tag hears exactly the frame the reader sends, within a tolerance per pulse, with or without the Hitag µ code-violation SOF, if and only if the violation does not come out shorter than nominal; if it does, a 0 and a 1 stand in front of the frame |
| `HitagLine.TagReceiveFrame` | src/armsrc/hitag_common.c:447-503 | The tag's receive loop fills its buffer with what the pulse-length decoder makes of the edges, for any edges whose bits fit the buffer; every index then stays inside |
| `HitagLine.Line.ReaderSendBit` | src/armsrc/hitag_common.c:122-147 | One pulse-length coded bit |
| `HitagLine.Line.ReaderSendFrame` | src/armsrc/hitag_common.c:149-186 | A whole frame with or without SOF and with its closing pulse |
| `HitagLine.BitsReceived` | src/armsrc/hitag_common.c:475-493 | The tag decodes each bit from the length of its pulse |
| `Em4x50Word.AcceptsEncodings` | src/armsrc/em4x50.c:89-136 | The accepted 45-bit words are exactly the encodings of 32-bit words, each of its own data |
| `Em4x50Word.DistanceThree` | src/armsrc/em4x50.c:89-136 | Two different accepted words differ in at least three places |
| `Em4x50Word.TwoBitErrorsRejected` | src/armsrc/em4x50.c:89-136 | Every corruption of one or two bits of an encoding is rejected |
| `Em4x50Word.EvenParities` | src/armsrc/em4x50.c:89-136 | Even parity, counted: a word is accepted if and only if every row and every column of it, parity included, has an even number of ones and the last bit is 0 |
| `Em4x50Word.DataPlaces` | src/armsrc/em4x50.c:89-111 | Data bit c of byte r is bit 9 r + c of the word |
| `Em4x50Word.ExtractParities` | src/armsrc/em4x50.c:89-136 | The shift-and-mask loops accept a word exactly when all its parities and the stop bit are right, and return its data |
| `Em4x50Word.CalculateRows` | src/armsrc/em4x50.c:113-122 | The row parities of the data |
| `Em4x50Word.CalculateColumns` | src/armsrc/em4x50.c:124-130 | The column parities of the data |
| `Em4x50Word.ReadRowParities` | src/armsrc/em4x50.c:102-106 | The parities that were sent: bits 8, 17, 26, 35 and the stop bit |
| `Em4x50Word.AllAgree` | src/armsrc/em4x50.c:132-135 | Comparing the parity numbers is comparing every parity |
| `Em4x50Word.Air.SendWord` | src/armsrc/em4x50.c:354-367 | The reader puts exactly the encoding of the word on the air |
| `Em4x50Word.Air.SendByteWithParity` | src/armsrc/em4x50.c:340-352 | Eight bits and their parity |
| `Em4x50Word.Air.SendByte` | src/armsrc/em4x50.c:333-338 | Eight bits, first one highest |
| `Em4x50Word.SimReadWord` | src/armsrc/em4x50.c:1334-1366 | The simulator reads the four data bytes and the column parities, and accepts on the columns and stop bit, whatever the row parities are |
| `Em4x50Word.SimReadByte` | src/armsrc/em4x50.c:1309-1332 | Eight bits into a byte, and whether the parity bit behind them, if asked for, is theirs |
| `Em4x50Word.RowParityIgnored` | src/armsrc/em4x50.c:1334-1366 | What the reader sends is read back, but an encoding with any one row parity wrong is read just the same |
| `Em4x50Line.WordDecoded` | src/armsrc/em4x50.c:524-608 | Every word sent by the simulated tag, carrier cycle by carrier cycle between two listen windows, is decoded to its 45 bits with every time between falls off by up to seven cycles, and its data is accepted |
| `Em4x50Line.NominalWordDecoded` | src/armsrc/em4x50.c:524-608 | The same for a word whose halves are equally long, with every time off by up to eight cycles |
| `Em4x50Line.ReceiveSentWord` | src/armsrc/em4x50.c:524-608 | The reader returns 45 and the transmitted 32 bits for such a word |
| `Em4x50Line.BitsDecoded` | src/armsrc/em4x50.c:532-604 | Any word of two bits or more that ends in a stop bit is decoded: off by up to eight cycles with equal halves, by seven with halves of 33 and 31 |
| `Em4x50Line.SimulatorSlack` | src/armsrc/em4x50.c:297-300 | Every word the simulator sends is decoded with every time off by up to s ticks if and only if s is at most 84, seven cycles |
| `Em4x50Line.NominalSlack` | src/armsrc/em4x50.c:297-300 | Every word whose halves are equally long is decoded with every time off by up to s ticks if and only if s is at most 96, eight cycles |
| `Em4x50Line.FirstMeaning` | src/armsrc/em4x50.c:532-549 | How a word starts, by the ticks of its first pulse: 1056 to 1248, 1440 to 1632, or any others |
| `Em4x50Line.PulseMeaning` | src/armsrc/em4x50.c:553-605 | What every further pulse means, by its ticks: which bits it adds, when it changes sides, when the word is over, and that any other pulse adds a 0 |
| `Em4x50Line.CycleAt` | src/armsrc/em4x50.c:1149-1180 | Cycle t of bit i on the line: twelve ticks at the level of the bit up to cycle 33, at the other level from there on |
| `Em4x50Line.GetWordFromBitstream` | src/armsrc/em4x50.c:524-608 | The loop over `word`, `cnt` and the bit-change flag computes what the bit-level decoder says, for any pulses |
| `Em4x50Line.PulseBits` | src/armsrc/em4x50.c:555-596 | One pulse inside the word shifts in the bits of the decoding step |
| `Em4x50Line.DropTwo` | src/armsrc/em4x50.c:598-604 | The final shifts leave the decoded bits without the one that belongs to the listen window |
| `Em4x50Line.PulseNear` | src/armsrc/em4x50.c:297-300 | Which of the known lengths a jittered pulse is taken for |
| `Em4x50Line.MidRun` | src/armsrc/em4x50.c:553-604 | The decoder in step in the middle of a 1 decodes the rest of the word |
| `Em4x50Line.EdgeRun` | src/armsrc/em4x50.c:553-604 | The decoder in step at the start of a 0 decodes the rest of the word |
| `Em4x50Line.SimLine.SendWord` | src/armsrc/em4x50.c:1203-1226 | The simulated tag sends the encoding of the word, least significant bit first |
| `Em4x50Line.SimLine.SendRows` | src/armsrc/em4x50.c:1210-1213 | The four data bytes with their parities |
| `Em4x50Line.SimLine.SendByte` | src/armsrc/em4x50.c:1183-1200 | A byte, with parity if asked for |
| `Em4x50Line.SimLine.SendBit` | src/armsrc/em4x50.c:1149-1180 | 64 carrier cycles, of which the level before the change takes 33 |
| `Em4x50Line.CyclesAreBits` | src/armsrc/em4x50.c:1149-1180 | The cycle-by-cycle waveform falls at the same times as Manchester bits with halves of 33 and 31 cycles |
| `Em4x50Sim.IdentityKept` | src/armsrc/em4x50.c:1776-1811 | Over every run the serial number and identity words never change |
| `Em4x50Sim.PasswordGuarded` | src/armsrc/em4x50.c:1715-1773 | The password word changes only in a write-password command that supplied the current password |
| `Em4x50Sim.ProtectedGuarded` | src/armsrc/em4x50.c:1609-1713 | Protection, control and range-protected words change only while logged in, and only to the word sent |
| `Em4x50Sim.LoginJustified` | src/armsrc/em4x50.c:1565-1607 | Whoever is logged in supplied the password of the time, and no reset, failed login or timeout has happened since |
| `Em4x50Sim.LoginLasts` | src/armsrc/em4x50.c:1843-1859 | Conversely a login lasts until a reset, a failed login or a timeout |
| `Em4x50Sim.LockedOut` | src/armsrc/em4x50.c:1565-1859 | Over any run in which the current password is never supplied no guarded word changes and nobody is ever logged in |
| `Em4x50Sim.WriteArrives` | src/armsrc/em4x50.c:1609-1713 | A write to one of the 34 words sets it to the word sent, bits reversed, exactly if both words were read, the address is not 0, 32 or 33, and the reader is logged in should the address be 1, 2 or between the low two bytes of the reversed protection word; otherwise no word changes |
| `Em4x50Sim.ReadBack` | src/armsrc/em4x50.c:1470-1713 | A word that a write has set is what every later reading command sends for its address, until it is written again, if the reader may see it |
| `Em4x50Sim.EchoReversed` | src/armsrc/em4x50.c:1626-1710 | What is sent right after a write, if bit 8 of the control word says so, is the word with its bits the other way round than every later read sends it |
| `Em4x50Sim.ReadShows` | src/armsrc/em4x50.c:1470-1563 | Word k of a reading command is word k of its range counted round and round: zero if it is protected and the reader is not logged in, otherwise the tag's word |
| `Em4x50Sim.ReadLength` | src/armsrc/em4x50.c:1481-1505 | It sends one word for each silent window but those that open a page |
| `Em4x50Sim.NextCommand` | src/armsrc/em4x50.c:1395-1438 | The command asked for in the window that ends a read is the next one; a lost field leads to standard read |
| `Em4x50Sim.LoginArrives` | src/armsrc/em4x50.c:1565-1589 | A login succeeds exactly with the password and changes nothing else; another word is remembered |
| `Em4x50Sim.ResetArrives` | src/armsrc/em4x50.c:1591-1607 | A reset ends the login and changes nothing else |
| `Em4x50Sim.PasswordArrives` | src/armsrc/em4x50.c:1715-1773 | The password changes exactly if the old one is supplied, the reader asks again in the next window, and the new one is read; the old one logs in unless the field is lost there |
| `Em4x50Sim.NewPassword` | src/armsrc/em4x50.c:1565-1773 | From then on the new password and no other logs a reader in, until the next write-password command |
| `Em4x50Sim.OthersKeep` | src/armsrc/em4x50.c:1776-1859 | No other command changes password, login or remembered password, but a timeout ends the login |
| `Em4x50Sim.WriteRangeIsReadRange` | src/armsrc/em4x50.c:1630-1632 | The write-protected range, as the write handler computes it, is the read-protected range |
| `Em4x50Sim.TagSim.HandleWrite` | src/armsrc/em4x50.c:1609-1713 | The tag after a write command: the addressed word, if it is writable, and nothing else; the word is sent back if the tag says so and two windows are silent |
| `Em4x50Sim.TagSim.HandleWritePassword` | src/armsrc/em4x50.c:1715-1773 | The tag after a write-password command |
| `Em4x50Sim.TagSim.HandleLogin` | src/armsrc/em4x50.c:1565-1589 | Logged in exactly when the word matches the password |
| `Em4x50Sim.TagSim.HandleReset` | src/armsrc/em4x50.c:1591-1607 | A reset ends the login |
| `Em4x50Sim.TagSim.HandleStandardRead` | src/armsrc/em4x50.c:1470-1508 | Sends the pages of the range in the control word, as the login and the read protection allow, until something is heard, and returns what was heard |
| `Em4x50Sim.TagSim.HandleSelectiveRead` | src/armsrc/em4x50.c:1510-1563 | The same for the range in the word received; nothing when it is not accepted |
| `Em4x50Sim.TagSim.SendWords` | src/armsrc/em4x50.c:1481-1505 | While every window is silent, words `first` to `last` go out in order, page after page; when one is not, exactly the words before it have gone out, and it is what is returned |
| `Em4x50Sim.TagSim.HandleCommands` | src/armsrc/em4x50.c:1776-1811 | The dispatcher has the effect of the command, sends what the command sends and returns what follows it; an unknown command has no effect |
| `Em4x50Sim.TagSim.Simulate` | src/armsrc/em4x50.c:1831-1859 | The simulation loop performs a run of such steps, each command the one the step before led to, until the button is pressed; what it sends is the transcript of that run |
| `Em4x50Sim.TagSim.Start` | src/armsrc/em4x50.c:1816-1864 | A dump without a password is given the caller's; the loop runs if and only if serial number and identity differ, and otherwise nothing changes and nothing is sent |
| `Em4x50Sim.StopsIs` | src/armsrc/em4x50.c:1843-1859 | The simulation ends exactly when the button is pressed between pages, or, in the model, with a write behind the last word |
| `Em4x50Sim.PagesAt` | src/armsrc/em4x50.c:1481-1505 | Word k sent by a reading command is word k of its range, counted round and round |
| `Em4x50Sim.PagesStep` | src/armsrc/em4x50.c:1481-1505 | One more silent window either opens a page or lets the next word of the page out |
| `Em4x50Sim.SentIsShown` | src/armsrc/em4x50.c:1470-1713 | Whatever a command sends is what login and read protection allow at that moment, or the word it has just written |
| `Em4x50Sim.NothingTold` | src/armsrc/em4x50.c:1470-1859 | Over any run in which the current password is never supplied, every word of the read-protected range is sent as zero |
| `Hitag2.RightSecret` | src/armsrc/hitag2.c:656-907 | A session with the right password or key succeeds: a read leaves the reader with all eight pages of the tag, a write replaces exactly the addressed page; from any cipher state and any flags of the tag, except that in password mode it must not be waiting for data |
| `Hitag2.AlwaysInStep` | src/armsrc/hitag2.c:656-907 | After any number of rounds the session invariant holds: reader and tag are in matching phases, their cipher states differ by exactly the frame on air, and that frame is the serial number, the configuration page, the page asked for or the repeated command |
| `Hitag2.InStepKept` | src/armsrc/hitag2.c:656-907 | Every round keeps that invariant |
| `Hitag2.PasswordDecides` | src/armsrc/hitag2.c:703-776 | In password mode a session succeeds if and only if the password is the tag's and the tag is not waiting for data |
| `Hitag2.WrongSecret` | src/armsrc/hitag2.c:703-907 | A reader that is not let in fails and changes nothing, except that a tag waiting for data takes the password for it |
| `Hitag2.Refused` | src/armsrc/hitag2.c:267-309 | A wrong password or authenticator is answered with silence |
| `Hitag2.Ignored` | src/armsrc/hitag2.c:196-319 | Frames of other lengths, and five bits other than 11000, are not answered and change nothing but the cipher's place |
| `Hitag2.GivesUp` | src/armsrc/hitag2.c:656-907 | Which frames make the reader stop without success, in every phase; what it has read stays |
| `Hitag2.FetchKept` | src/armsrc/hitag2.c:749-766 | One page is fetched correctly per round, and after the eighth the reader stops with success |
| `Hitag2.LoginKept` | src/armsrc/hitag2.c:737-764 | After the configuration page the reader asks for the first page or addresses the page to write |
| `Hitag2.CommitKept` | src/armsrc/hitag2.c:665-684 | After the repeated command the data goes out and the tag stores it at the address |
| `Hitag2.StartKept` | src/armsrc/hitag2.c:718-737 | The serial number is answered with the secret, which the tag accepts |
| `Hitag2.RankFalls` | src/armsrc/hitag2.c:1802-2040 | Whatever state reader and tag start from, every session ends |
| `Hitag2.MemoryKept` | src/armsrc/hitag2.c:196-319 | Tag memory changes only on a 32-bit frame while the tag waits for data, and only in the addressed page |
| `Hitag2.TestedIsCommand` | src/armsrc/hitag2.c:224-263 | The tag's tests on the two bytes accept exactly the command words: operation bits and a page number with its complement |
| `Hitag2.PageCommandBits` | src/armsrc/hitag2.c:224-264 | Bit by bit: read is 11, the page, 00, its complement; inverted read 01 and 10, write 10 and 01 around the page; any other ten bits are not answered |
| `Hitag2.CommandBits` | src/armsrc/hitag2.c:652-763 | The ten bits that the reader sends are those |
| `Hitag2Air.LoginOnAir` | src/armsrc/hitag2.c:718-737 | Rounds 1 and 2 of every session with the right secret, bit by bit: 11000, the serial number, the password or 32 zeros and 32 ones under the key stream, the configuration page under the key stream from bit 32 on |
| `Hitag2Air.ReadingOnAir` | src/armsrc/hitag2.c:829-907 | Round 3 + i of every reading session, bit by bit: the ten bits that ask for page i and the 32 bits of the page; in crypto mode under the key stream from bits 64 + 42 i and 74 + 42 i on |
| `Hitag2Air.WritingOnAir` | src/armsrc/hitag2.c:656-701 | The rest of every writing session, bit by bit: the ten bits that announce the page, the same ten bits back, the data, silence, under the key stream from bits 64, 74 and 84 on |
| `Hitag2Air.CryptBits` | src/common/hitag2/hitag2_crypto.c:422-431 | Bit k of an encrypted frame is bit k of the plain one combined with the next key bit, for any number of bits |
| `Hitag2Air.AuthenticatorBits` | src/common/hitag2/hitag2_crypto.c:413-420 | What proves the key is 32 ones under the first 32 key bits |
| `Hitag2Air.CommandStream` | src/armsrc/hitag2.c:652-763 | The read and write commands as ten bits |
| `Hitag2.UnreadablePages` | src/armsrc/hitag2.c:797-828 | A crypto read from a tag that keeps any of its pages to itself succeeds if silence reaches the reader's turn as an empty frame: the tag's pages where it answers, the key in pages 1 and 2, zeros elsewhere |
| `Hitag2.UnreadableFails` | src/armsrc/hitag2.c:1802-2040 | The loop of the source gives up at silence, so with such a page a read never succeeds |
| `Hitag2.CommandAgain` | src/armsrc/hitag2.c:667-669 | The writer's test of the repeated command accepts exactly that command word |
| `Hitag2.Tag.HandleReaderCommand` | src/armsrc/hitag2.c:196-319 | The handler, decrypting and encrypting in its buffers, answers every frame of up to 160 bits as the tag machine does |
| `Hitag2.Tag.HandlePageCommand` | src/armsrc/hitag2.c:224-264 | Ten bits: read, inverted read, write, or nothing, as the tag machine does |
| `Hitag2.Tag.HandleData` | src/armsrc/hitag2.c:267-283 | 32 bits: page data or password |
| `Hitag2.Tag.HandleChallenge` | src/armsrc/hitag2.c:286-309 | 64 bits: restart the cipher, compare the authenticator, switch encryption on |
| `Hitag2.Reader.Password` | src/armsrc/hitag2.c:703-776 | One turn in password mode is the turn of the reader machine |
| `Hitag2.Reader.CryptoTurn` | src/armsrc/hitag2.c:778-907 | One turn in crypto mode is the turn of the reader machine, with no frame encrypted twice |
| `Hitag2.Reader.WritePage` | src/armsrc/hitag2.c:656-701 | The three write states |
| `Hitag2.Reader.NoAnswer` | src/armsrc/hitag2.c:797-828 | Silence: start, give up, or skip a page that cannot be read |
| `Hitag2.Reader.SendChallenge` | src/armsrc/hitag2.c:829-861 | The zero nonce and the encrypted ones are the authenticator the tag expects |
| `Hitag2.Transcrypt` | src/common/hitag2/hitag2_crypto.c:422-431 | Whole bytes and then single bits are combined with the key stream, the rest of the buffer is kept, and the cipher advances by the number of bits |
| `Hitag2.CryptTwice` | src/common/hitag2/hitag2_crypto.c:422-431 | Encryption from equal cipher states undoes itself |
| `Hitag2.OnesEncrypted` | src/common/hitag2/hitag2_crypto.c:413-420 | Encrypting ones is complementing the key bytes, which is how reader and tag compute the authenticator |
| `Hitag2.OnAirIsClean` | src/armsrc/hitag2.c:2011-2027 | A frame packed into a cleared buffer has no stray bits behind its last one |
| `Hitag2.Converse` | src/armsrc/hitag2.c:1802-2040 | The loop of reader and tag over a channel that delivers every bit ends as the session of the two machines |
| `Cbc.SendThenReceive` | src/armsrc/desfire_crypto.c:832-967 | For any block functions of which the second undoes the first, sending and then receiving from equal vectors restores any whole number of blocks and leaves equal vectors |
| `Cbc.ReceiveThenSend` | src/armsrc/desfire_crypto.c:832-967 | The same for receiving first |
| `Cbc.ChainSplits` | src/armsrc/desfire_crypto.c:940-967 | Without the legacy reset a message may be chained in two calls, split at any block boundary |
| `Cbc.ChainAt` | src/armsrc/desfire_crypto.c:832-967 | Every block of a chained message by itself: sent, it is the block function of the block combined with the block sent before it; received, the block function of it combined with the block received before it; the first uses the vector |
| `Cbc.ChainEnd` | src/armsrc/desfire_crypto.c:832-967 | The vector left behind is the last block that was on the line |
| `Cbc.CypherSingleBlock` | src/armsrc/desfire_crypto.c:832-927 | One block in place: data and vector become those of one chaining step, all other bytes are kept |
| `Cbc.CypherBlocksChained` | src/armsrc/desfire_crypto.c:940-967 | All blocks in place: data and vector become those of the chain from the caller's vector, or from zero under the legacy scheme |
| `Cbc.XorInto` | src/common/commonutil.c:426-434 | `xor` on a stretch of an array leaves the rest alone |
| `Cbc.XorTwice` | src/common/commonutil.c:426-434 | Combining twice with the same block restores it |
| `Cmac.UlaesCmac` | src/armsrc/cmac_calc.c:104-153 | For every message, the empty one included, and any 16-byte block function the output is the CMAC of NIST SP 800-38B, section 6.2, and the subkeys are those of section 6.1 |
| `Cmac.Des3Cmac` | src/armsrc/cmac_3des.c:72-124 | The same for 8-byte blocks |
| `Cmac.Compute` | src/armsrc/cmac_calc.c:104-153 | The common algorithm for either block size and its reduction byte |
| `Cmac.MaskLast` | src/armsrc/cmac_calc.c:122-141 | The last block, complete or padded, masked with the first or second subkey |
| `Cmac.GenerateSubkeys` | src/armsrc/cmac_calc.c:76-94 | The subkeys are the block of zeros enciphered and multiplied by x once and twice in the field |
| `Cmac.Padding` | src/armsrc/cmac_calc.c:97-101 | A 1 bit and zeros behind the partial block |
| `Cmac.LeftShift` | src/armsrc/cmac_calc.c:67-73 | The carry loop from the last byte to the first shifts the block by one bit |
| `Cmac.ShiftStream` | src/armsrc/cmac_calc.c:67-73 | The byte-wise shift drops the first bit of the block and appends a zero |
| `Cmac.DoublingIsTimesX` | src/armsrc/cmac_calc.c:82-93 | Shift and conditional reduction are multiplication by x modulo the field polynomial |
| `Cmac.SubkeysUnique` | src/armsrc/cmac_calc.c:76-94 | At most one pair of blocks satisfies section 6.1 |
| `Cmac.CmacUnique` | src/armsrc/cmac_calc.c:104-153 | Two routines that compute the CMAC agree on every message |
| `Cmac.StandardSteps` | src/armsrc/cmac_calc.c:104-153 | What the CMAC of section 6.2 is, spelled out for a partial block, one block, two blocks, and one block off the front of a longer message |
| `Cmac.Polynomial` | src/armsrc/cmac_calc.c:82-93 | The field polynomials: x^7, x^2, x and 1 for 16 bytes, x^4, x^3, x and 1 for 8 |
| `Cmac.PadBits` | src/armsrc/cmac_calc.c:97-101 | Padding bit by bit: a 1 behind the message, zeros to the end of the block |
| `Desfire.Compute` | src/armsrc/desfire_crypto.c:331-354 | The MAC is the chaining value from the running vector, which it becomes; under a zero vector it is the CMAC of the two stand-alone routines |
| `Desfire.GenerateSubkeys` | src/armsrc/desfire_crypto.c:294-329 | Receiving a zero block under a zero vector and doubling in place gives the same subkeys |
| `Desfire.Lsl` | src/common/commonutil.c:437-442 | The in-place shift from the first byte to the last is the same shift |
| `Desfire.ChainIsMac` | src/armsrc/desfire_crypto.c:331-354 | Chaining the padded, masked message is MACing it |
| `Desfire.AddPadding` | src/armsrc/desfire_crypto.c:341-346 | The padding loop stops exactly at the end of the buffer |
| `Desfire.FillBuffer` | src/armsrc/desfire_crypto.c:337-350 | The message in its zeroed buffer with the padding there is room for |
| `Desfire.PaddedLengthIsLeast` | src/armsrc/desfire_crypto.c:396-402 | The padded length is the least positive whole number of blocks that holds the data |
| `Rewriter.TokensKept` | apply_all.py:56-143 | Lexing the rewritten text gives the rewritten tokens: as many, of the same kinds, in order; for every text and dictionary |
| `Rewriter.OnlyTranslations` | apply_all.py:73-98 | Each token is unchanged or is a string literal whose new inside un-escapes to the dictionary's translation of the old one, under the script's conditions |
| `Rewriter.RewritingObeys` | apply_all.py:75-96 | The rewritten tokens are what the script promises: which literals are translated, to what, how many they are, and that nothing else changes |
| `Rewriter.TokenShape` | apply_all.py:56-141 | What each token is: literals end at the first quote with an even number of backslashes before it, comments and directives where they should, everything else is one character |
| `Rewriter.CloseIsFirst` | apply_all.py:59-74 | Skipping escapes finds the first quote with an even number of backslashes directly before it |
| `Rewriter.InnerIs` | apply_all.py:75-76 | The inside of a literal is the literal without its quotes |
| `Rewriter.EscapeUndone` | apply_all.py:89-91 | Un-escaping the escaped translation restores it |
| `Rewriter.LexLossless` | apply_all.py:56-143 | The tokens of a text are the whole text |
| `Rewriter.SameToken` | apply_all.py:59-141 | A token is recognised the same whatever follows it, if the next character is the same |
| `Rewriter.TranslatedToken` | apply_all.py:89-94 | A translated literal is lexed as itself |
| `Rewriter.ApplyCFile` | apply_all.py:47-149 | The scan with its indices and result list: in its output exactly the string literals with a fitting entry un-escape to that entry, every other token is byte for byte as it was, and the number reported is theirs |
| `Rewriter.NextPiece` | apply_all.py:56-141 | One turn of the main loop appends the rewriting of the token at the index and moves behind it |
| `Rewriter.ScanLiteral` | apply_all.py:59-74 | The inside of a literal and where it closes, escapes skipped |
| `Rewriter.Update` | apply_all.py:143-149 | The same of the file left behind, also when nothing was replaced and it is not written |
| `BigBuf.ParsePrefix` | src/armsrc/BigBuf.c:246-297 | Any log followed by anything is read as that log followed by what the rest reads as |
| `BigBuf.ParseBack` | src/armsrc/BigBuf.c:246-297 | A trace reads back as exactly the records logged |
| `BigBuf.ParseFirst` | src/include/pm3_cmd.h:178-190 | One record is read back: timestamp, duration, direction, data and parity |
| `BigBuf.RecordBytes` | src/include/pm3_cmd.h:178-190 | Every byte of a record in its place: time, duration, length with the direction in the top bit, data, a parity bit for each byte |
| `BigBuf.Buffer.MaxTraceLen` | src/armsrc/BigBuf.c:211-214 | The limit is the greatest multiple of four up to the free area, modulo 2^16 |
| `BigBuf.Buffer.TraceReads` | src/armsrc/BigBuf.c:246-297 | At any time the trace area reads as the records accepted since the last clear |
| `BigBuf.Buffer.TraceApart` | src/armsrc/BigBuf.c:138-180 | At any time every chunk lies inside the buffer and above the trace |
| `BigBuf.ChunksDisjoint` | src/armsrc/BigBuf.c:138-180 | No two chunks overlap, the emulator memory included |
| `BigBuf.Buffer.LogTrace` | src/armsrc/BigBuf.c:246-297 | A record is added exactly if there is data, tracing is on, the length is 1 to 32767 and the trace with it stays below the free area rounded down to four bytes, modulo 2^16; only a lack of room stops tracing; memory above the free area is untouched |
| `BigBuf.Buffer.LogTraceBits` | src/armsrc/BigBuf.c:308-319 | Bits are logged with the number in the last byte as first parity byte, under the same conditions |
| `BigBuf.BitLengthBack` | src/armsrc/BigBuf.c:308-319 | The number of bits can be told from the record |
| `BigBuf.DurationExact` | src/armsrc/BigBuf.c:267-281 | The logged duration is the elapsed time, capped, if and only if the clock ran without wrapping or the time does not fit anyway; across a wrap it is one tick short, of no time the cap |
| `BigBuf.Buffer.Malloc` | src/armsrc/BigBuf.c:138-148 | A chunk is handed out exactly when its rounded size is positive and fits above the trace |
| `BigBuf.Buffer.Calloc` | src/armsrc/BigBuf.c:152-158 | The same, zeroed, leaving all other chunks alone |
| `BigBuf.Buffer.EmulatorMemory` | src/armsrc/BigBuf.c:96-102 | The emulator memory is allocated once and then stays |
| `BigBuf.Buffer.Free` | src/armsrc/BigBuf.c:161-168 | Everything is free again |
| `BigBuf.Buffer.FreeKeepEmulator` | src/armsrc/BigBuf.c:171-180 | Everything handed out after the emulator memory is free again |
| `BigBuf.Buffer.Store` | src/armsrc/BigBuf.c:138-158 | An owner writing into its chunk disturbs nothing else |
| `BigBuf.Buffer.Clear` | src/armsrc/BigBuf.c:120-126 | Clearing zeroes the buffer and empties the trace |
| `BigBuf.AlignedIs` | src/armsrc/BigBuf.c:138-140 | Sizes are rounded up to multiples of four, and the three largest wrap to none |
| `Frozen.Walk` | src/armsrc/frozen.c:813-826 | The walk succeeds if and only if a value stands at the start of the text; the value is then the only one, the walk returns where it ends, and its events are exactly the events of that value at the empty path, in order, with every bracket closed |
| `Frozen.OneText` | src/armsrc/frozen.c:348-390 | At most one value, or key with its value, stands at a place of a text: brackets match in one way, and every token has one end |
| `Frozen.OneList` | src/armsrc/frozen.c:303-438 | The items between a bracket and the one that closes it are determined by the text |
| `Frozen.EventsBalance` | src/armsrc/frozen.c:303-438 | The events of a value close every bracket they open, with the same kind and path, in the right order |
| `Frozen.PathsExtend` | src/armsrc/frozen.c:121-129 | Every reported path extends the path of its value and has less than 256 characters |
| `Frozen.KeyReported` | src/armsrc/frozen.c:107-112 | Under a reported path an object's keys are reported if and only if the path has no room left for the dot |
| `Frozen.MemberReported` | src/armsrc/frozen.c:406-421 | The value of a key stands under path, dot and key, cut at 255 characters; uncut, it is reported if and only if the key is neither empty nor ends in a dot |
| `Frozen.ElementReported` | src/armsrc/frozen.c:310-319 | An element is reported if and only if its array is, or the path has room for a character more |
| `Frozen.DecimalBack` | src/armsrc/frozen.c:311-313 | The index in a path is the decimal notation of the element's number: digits only, no leading zero, and they read back as the number |
| `Frozen.ElementsApart` | src/armsrc/frozen.c:310-319 | No two elements of an array, nor what is in them, stand under the same path, unless the index is cut |
| `Frozen.ElementPath` | src/armsrc/frozen.c:310-319 | An element stands under the array's path and its index in brackets |
| `FrozenText.Documents` | src/armsrc/frozen.c:241-438 | Round trip: whatever document is written as a text, with any white space between its tokens, is read whole, and told value by value at its path with the text it has |
| `FrozenText.WalkDocument` | src/armsrc/frozen.c:813-826 | The walk of such a text returns its length and makes exactly the calls of the document |
| `FrozenText.NumRead` | src/armsrc/frozen.c:268-300 | Signs, fractions, exponents and hexadecimal digits are read to their end |
| `FrozenText.PiecesRead` | src/armsrc/frozen.c:241-265 | Escapes, four-digit codes and codes of two to four bytes are read to the closing quote |
| `Frozen.Walker.ParseValue` | src/armsrc/frozen.c:348-390 | One value: read if and only if one stands behind the white space at the cursor; the cursor is then behind it, the path is as before, and the new events are the events of that value at the path; on every input it ends |
| `Frozen.Walker.ParseObject` | src/armsrc/frozen.c:424-438 | An object from its own brace to the one that matches it, or none stands there |
| `Frozen.Walker.ParseArray` | src/armsrc/frozen.c:303-328 | An array from its own bracket to the one that matches it, or none stands there |
| `Frozen.Walker.Elements` | src/armsrc/frozen.c:310-321 | All elements up to the closing bracket, each under the path with its own index |
| `Frozen.Walker.Members` | src/armsrc/frozen.c:429-432 | All pairs up to the closing brace, at most one comma behind each |
| `Frozen.Walker.ParsePair` | src/armsrc/frozen.c:406-421 | A key, white space, a colon and a value, which is reported under the path with the key |
| `Frozen.Walker.ParseKey` | src/armsrc/frozen.c:393-403 | A key: an identifier or a quoted string, whole, or none stands there |
| `Frozen.Walker.ParseString` | src/armsrc/frozen.c:241-265 | Read if and only if a string stands there: characters and escapes, none of them a bare quote, up to the closing quote |
| `Frozen.Walker.ParseNumber` | src/armsrc/frozen.c:268-300 | A number token is exactly the number that stands at the cursor |
| `Frozen.Walker.NumberText` | src/armsrc/frozen.c:270-296 | The text taken is the longest that fits the grammar of a number, with the hexadecimal form; it fails if and only if there is none |
| `Frozen.Walker.Expect` | src/armsrc/frozen.c:331-345 | A literal, read if and only if it stands at the cursor |
| `Frozen.Walker.ParseIdentifier` | src/armsrc/frozen.c:214-226 | A letter and all letters, digits and underscores behind it |
| `Frozen.Walker.AppendToPath` | src/armsrc/frozen.c:121-129 | The path grows by as much as it has room for and stays below 256 |
| `Frozen.Walker.CallBack` | src/armsrc/frozen.c:107-119 | The callback is left out exactly when the path ends in a dot |
| `Em4x70.HeaderThenData` | src/armsrc/em4x70.c:1334-1423 | Reception that joins anywhere in the last 15 ones of a header returns the first n bits behind it, for every n the data exceeds by a bit, every pulse off by less than eight field periods |
| `Em4x70.HeaderWithin` | src/armsrc/em4x70.c:1345-1423 | From the start of a 1, reception returns the data with up to 15 more ones ahead and nothing with 16 or more |
| `Em4x70.PulseMeaning` | src/armsrc/em4x70.c:1373-1412 | What a pulse says, for every length in ticks |
| `Em4x70.PulseTimed` | src/armsrc/em4x70.c:274-340 | How a pulse is timed, and when it times out |
| `Em4x70.BitsDecoded` | src/armsrc/em4x70.c:1373-1418 | The decoder in step returns the first n bits of any stream of n + 1 bits or more, also when the last pulse stands for two |
| `Em4x70.PulseInStep` | src/armsrc/em4x70.c:1373-1418 | One pulse tells one or two bits and leaves the decoder in step, with the right edge to time next |
| `Em4x70.ReadsBits` | src/armsrc/em4x70.c:1377-1412 | The three pulse lengths, with jitter, tell the bits they stand for |
| `Em4x70.TransitionFound` | src/armsrc/em4x70.c:1348-1360 | The search stops in mid-bit of the first zero |
| `Em4x70.TransitionFoundFrom` | src/armsrc/em4x70.c:1345-1360 | Wherever in the ones reception joins, the search gets into step |
| `Em4x70.ZerosSkipped` | src/armsrc/em4x70.c:1362-1368 | The remaining header zeros are skipped one pulse each |
| `Em4x70.Antenna.Receive` | src/armsrc/em4x70.c:1334-1423 | The routine stores in `bits` what the decoder says, for any line |
| `Em4x70.Antenna.ReceiveData` | src/armsrc/em4x70.c:1373-1422 | The receive loop with its edge switching |
| `Em4x70.Antenna.FindHeader` | src/armsrc/em4x70.c:1348-1360 | At most 16 pulses are tried |
| `Em4x70.BitsToBytes` | src/armsrc/em4x70.c:1246-1258 | The first byte received is stored last |
| `Em4x70.BitsToByte` | src/armsrc/em4x70.c:1260-1270 | Eight bits, the first one most significant |
| `Fpga.CombinedStream.GetFrom` | src/armsrc/fpgaloader.c:247-255 | Call k for file i of n returns byte (k/288)·288·n + i·288 + k%288 of the combined stream, and the skip loop ends |
| `Fpga.CombinedStream.Get` | src/armsrc/fpgaloader.c:204-223 | The next byte of the combined stream, across refills of the ring buffer |
| `Fpga.CombinedStream.Refill` | src/armsrc/fpgaloader.c:205-220 | The next block starts at the front of the ring buffer |
| `Fpga.NothingBetween` | src/armsrc/fpgaloader.c:249-252 | Between two neighbouring bytes of a file no position passes the skip test |
| `Fpga.PositionBelongs` | src/armsrc/fpgaloader.c:249-249 | The position of a byte passes the skip test of its file |
| `Fpga.PositionIs` | src/armsrc/fpgaloader.c:247-255 | Byte k of file i of n stands at 288·n·(k/288) + 288·i + k%288 |
| `Fpga.ReadFile` | src/armsrc/fpgaloader.c:260-276 | Reading byte by byte from a reset stream delivers the bytes at those positions |
| `Fpga.Interleave` | src/tools/fpga_compress/fpga_compress.c:59-84 | The tool's rounds put every byte of every file, filled up with zeros if there are several, where it belongs, inside the buffer; a single file is stored as it is; it fails only if a file is too big |
| `Fpga.WhatStands` | src/tools/fpga_compress/fpga_compress.c:59-84 | The combined stream place by place: 288 bytes of every file in turn, zeros behind a file's end, as many rounds as the longest file needs, a single file as it is |
| `Fpga.ReadBack` | src/tools/fpga_compress/fpga_compress.c:59-84 | Whatever files were combined and however the stream was cut into blocks, each file is read back whole |
| `Fpga.FlatBlock` | src/armsrc/fpgaloader.c:205-220 | Where each block stands in the combined stream |

## Left out

- Registers, timers, LEDs, DMA, FPGA configuration and button or USB polling: replaced by lines, streams and inputs.
- AES, DES, the Hitag 2 cipher, LZ4 and the CRC routines: parameters, as said above; the choice of cipher and direction by
  key type in `mifare_cypher_single_block` is the caller's choice of block function.
- `HitagLine.ReaderReceiveFrame`: the copy of the edge times kept for debugging, which has room for 160, is not part of this model.
- `HitagLine.ReaderToTag`: for a tag with nothing received before; the stray bit that two short pulses in front of a frame can leave
  is in the decoder (`TagRx.stale`), not in this statement.
- `Hitag2.Converse`: the channel delivers every bit; the Manchester receive loops in `ReaderHitag`, `WriterHitag` and
  `SimulateHitag2`, their guard times, and the tear-off hook are not part of this model.
- `Hitag2.RightSecret`: for a write the page number is below 8, as the ten-bit command can express no other.
- `hitag2_authenticate` and `hitag2_test_auth_attempts`, the Hitag 1 routines, `hitag_crc` and the table of recorded
  authentication attempts.
- `Em4x50Sim.TagSim.HandleWrite`: not for a write that falls behind the tag's 34 words, where the source leaves its array; a run of
  the model ends there. ACK and NAK pulses, waiting times and the edge-level listen window are inputs or left out.
- `Em4x50Sim.TagSim.SendWords`: what a read finds behind the last word is a parameter.
- `Em4x70.Antenna.Receive`: a pulse that times out ends the signal; the fixed wait before the header is the free choice of where
  reception joins. Command building and sending are left out.
- `Desfire.Compute`: the buffer allocation is taken to succeed and the key to be given; preprocessing and postprocessing of data,
  session keys and key versions are left out.
- `Rewriter.ApplyCFile`: files, their encodings and the statistics of `main` are left out; the dictionary maps strings to strings.
- `BigBuf.Buffer.LogTrace`: `set_tracelen`, `BigBuf_Clear_keep_EM` (it zeroes the trace without resetting its length), the emulator
  memory accessors, the ToSend and DMA buffers and the ISO 15693 variant are left out.
- `Frozen.Walk`: which of the two error codes a bad text gets, what was reported before the error, the names passed to the
  callback, negative lengths and null pointers are left out, and the one character an escape at the very end may look at beyond the
  text is a zero.
- `Fpga.Interleave`: compressing what was combined and the parsing of `.bit` headers are left out.
- `json_escape`, `json_unescape` and printing, attack tooling, packet transport and the other Python scripts.
