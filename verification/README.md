# ArrowZip verification

Dafny models of the parts of the ArrowZip repository whose behaviour is hardest to see from reading one
function: the integer wavelet transform of the board software, the 64-bit division and the soft multiply, the
flash driver on top of the bit-serial flash simulator, the UART, bus-memory and SDRAM simulators, the hexbus
client, and the test-and-set lock program. Check everything with `dafny verify dfyconfig.toml`.

| Files | What they model |
|---|---|
| `LiftingSpec`, `Lifting`, `LiftingRange`, `LiftingShapes`, `LiftingAsWritten` | `sw/board/lifting.c`: the row formulas, passes and levels on values; `singlelift`, `ilift` and `lifting` on buffers; magnitudes and bands; ramps and flat images; the defect, and the images it spares |
| `Division`, `Multiply`, `Bits` | `sw/zlib/udiv.c`, `sw/zlib/umod.c`, the soft multiply of `sw/board/cputest.c`, and the shift and mask operators they use |
| `FlashSpec`, `FlashSafety`, `FlashBytes`, `FlashFrames`, `FlashStatus`, `FlashCommands`, `FlashWrites`, `FlashSim` | `sim/verilated/flashsim.cpp`: one call as a step on values, what holds over every run, whole bytes, whole command frames, the registers, and the simulator field by field |
| `FlashGoal`, `FlashDrvr`, `ByteSwap` | `sw/host/flashdrvr.cpp` and `sw/host/byteswap.cpp`: the driver, on top of that simulator call by call |
| `Uart`, `UartLoop`, `UartFrames` | `sim/verilated/uartsim.cpp`: the bit engine, its loopback, and its frames on the line |
| `MemSpec`, `MemLaws`, `MemSim`, `ByteLanes` | `sim/verilated/memsim.cpp`: the words and replies as functions of the calls, which word answers, and the simulator |
| `SdramSpec`, `SdramPins`, `Sdram` | `sim/verilated/sdramsim.cpp` once powered up: the memory behind the commands, the same by pin levels, and the simulator |
| `HexText`, `HexbusSpec`, `HexbusReads`, `Hexbus` | the parser and the read client of `sw/host/hexbus.cpp` |
| `LockSpec`, `LockRounds`, `Lockcheck` | `sw/board/lockcheck.c` |

Conventions. An address into a C buffer is an array with an index. Where a register's width matters the reduction
is written out; `>>` of a signed value is floor division. An `assert`, an `exit` or an access outside an array is
either a `None` result or a condition on the caller; the erase assertion of the flash simulator, which the flash
driver can run into, is the driver methods' result `stopped`. Objects that the source updates in place are classes
whose methods are proved against a function of the old state. `SDRAMSIM` keeps its refresh deadlines in unsigned
words and tests them with `< 0`; they are signed here, as the test intends. `m_nrefresh` is never set by the source
and is a parameter. The address that `ReadV` throws takes `buf[nread++] = readword()` to call `readword` before
`nread` moves on, an order that C++ fixes since C++17.

What the proofs found out about the code:

- `ilift` overwrites `d` in its tail without moving it to `b` first, so the last even sample of every row is
  rebuilt from a stale neighbour. `StaleIPassError` gives the exact error. One pass restores an image exactly if no
  row has that error (`OnePassRestoredIff`). A level restores it exactly if the errors of its two passes cancel: no
  row but row w-2 has one, and those of the half-transformed columns are what the stale neighbour would have changed
  in row w-2 (`LevelRestoredIff`). The whole transform does so exactly if every level does (`AsWrittenIdentityIff`).
  Having no error at all is sufficient but not necessary (`ErrorsCancel`). `AsWrittenNotIdentity` gives one image
  per width that is not restored. With the missing move restored (`carry`), `Lifting` is the identity for every
  width that is a multiple of 8 and at least 16. As written, `ilift` on a row of four reads `b` before it is set,
  so `Lifting` without `carry` starts at 24.
- The comment at `sw/board/cputest.c:717` fears a lost carry when the low word is zero; the code adds it, and the
  signed product is right for all operands.
- The parity bit that `UARTSIM` computes covers the eight bits after the start bit. With six data bits one of them is a
  stop bit, so the parity sent is the wrong one, and only then (`ParityRightIff`).
- `MEMSIM` with a delay of 0 behaves as with a delay of 1.
- The memory of `SDRAMSIM` has room for 4096 rows per bank while row addresses have 13 bits; transfers beyond the
  array are excluded by `InRange`.
- The flash driver uses 0 in `newv` for "this sector already matches". That is safe because the flash window
  starts at bus address 0x1000000 (`sim/verilated/regdefs.h:199`), so no word to be written has address 0.
  Line 244 of the driver initialises the inner `len` from itself; the outer `addr + len - p` is modelled.
- The flash simulator asserts that an erased sector lies in its first 4 megabytes, although the chip it stands for
  is larger. `EraseFrameIff` shows that a sector erase from there on always stops it, and `Write` that a write is
  stopped exactly if such a sector has to be erased, with the sectors below done. The loader accepts flash sections
  only from 0x1400000 on (`sw/host/zipload.cpp:258-264`, `sim/verilated/regdefs.h:195`), which is 4 megabytes into
  the chip: on this simulator its writes end only where programming alone is enough.
- The timer of the flash simulator clears the deep-power-down bit along with the write bits when it runs out. So a
  chip can leave deep power down without the release command: `WakesUnasked` has the three steps.
- `m_isspace` of the hexbus client is never initialised; `FreshBefore` shows that this does not matter.

## Model

| member | source | states |
|---|---|---|
| LiftingSpec.InvFwd | sw/board/lifting.c:84-109 | The inverse row formulas undo the forward ones on every row of even width, with the true and with the stale neighbour. |
| LiftingSpec.FwdInv | sw/board/lifting.c:143-171 | The forward row formulas undo the inverse ones: the row transform is a bijection. |
| LiftingSpec.StaleInvOfFwd | sw/board/lifting.c:166-171 | The inverse as written changes one sample of the row, number w-2, and by exactly ((x[w-5]+x[w-1])>>1) - ((x[w-3]+x[w-1])>>1). |
| LiftingSpec.StaleIPassError | sw/board/lifting.c:113-173 | The same for a whole block in any strided position: every cell comes back except column w-2, which is off by the error of its row. |
| LiftingSpec.LevelViaAny | sw/board/lifting.c:204-209 | Two passes through the scratch buffer do not depend on what the scratch buffer held. |
| LiftingSpec.ILevelLevel | sw/board/lifting.c:204-252 | Two inverse passes undo two forward passes on the whole buffer, cells outside the block included. |
| LiftingSpec.InverseForward | sw/board/lifting.c:201-254 | Any number of nested levels followed by their inverses is the identity. |
| LiftingSpec.ForwardInverse | sw/board/lifting.c:201-254 | And in the other order. |
| LiftingAsWritten.OnePassRestoredIff | sw/board/lifting.c:113-173 | One inverse pass as written restores what one forward pass made of a block exactly if no row of the block has a neighbour error. |
| LiftingAsWritten.LevelRestoredIff | sw/board/lifting.c:204-252 | One level is restored exactly if only row w-2 has an error and the errors of the half-transformed columns equal, place by place, what the stale neighbour changes in the coefficients of row w-2. |
| LiftingAsWritten.CornerFollows | sw/board/lifting.c:201-254 | If the stale and the true forward level agree outside the corner that the next level works on, they agree in the corner too: no deeper level can make up for an error. |
| LiftingAsWritten.AsWrittenIdentityIff | sw/board/lifting.c:175-255 | The whole transform as written restores an image exactly if at every level the errors of that level's two passes cancel on what the levels before it left. |
| LiftingAsWritten.ErrorsCancel | sw/board/lifting.c:166-171 | An image with an error in one row that is restored all the same. |
| LiftingRange.AsWrittenNotIdentity | sw/board/lifting.c:175-255 | For every width that has three levels, an image (all zero but one 2) that the transform as written does not restore. |
| Lifting.SingleLift | sw/board/lifting.c:46-111 | The rolling pipeline leaves in the strided output block the transposed row transforms of the input block; every cell of it is written once, and nothing else in the buffer changes. |
| Lifting.ILift | sw/board/lifting.c:113-173 | The inverse pipeline likewise, with the true neighbour if the move is restored and the stale one as written. |
| Lifting.LiftLevel | sw/board/lifting.c:201-209 | Out to the scratch buffer and back is one level of the transform. |
| Lifting.UnliftLevel | sw/board/lifting.c:249-252 | Likewise for the inverse. |
| Lifting.LiftAll | sw/board/lifting.c:201-233 | Three levels: of the image, of its low corner and of the corner's corner, with their offsets and widths written out in w; w/8 and the two corner offsets are handed on. |
| Lifting.ThreeForward | sw/board/lifting.c:183-254 | Going down nested corners is those three levels, and back up their inverses in reverse. |
| Lifting.UnliftAll | sw/board/lifting.c:235-254 | The inverse levels of the same three blocks in reverse. |
| Lifting.Lifting | sw/board/lifting.c:175-255 | With the move restored and `fwd[0] == 0`, the image comes back exactly; otherwise the buffer holds the three forward levels, or those and then the three stale inverse ones, over the three blocks written out. |
| LiftingShapes.FwdFormulas | sw/board/lifting.c:46-111 | Every coefficient of a row from its samples, both edges included. |
| LiftingShapes.RampRow | sw/board/lifting.c:46-111 | A row that rises evenly has no detail but at its left edge, and its low-pass half is its odd samples. |
| LiftingShapes.FlatImage | sw/board/lifting.c:201-233 | A flat image becomes its value in the corner of an eighth of the width and zeros everywhere else. |
| LiftingRange.RowWithin | sw/board/lifting.c:84-109 | One pass at most doubles the magnitude of the samples and overflows nothing while 4 times the bound fits. |
| LiftingRange.ForwardWithin | sw/board/lifting.c:201-233 | After k levels every coefficient is within 4^k times the bound of the image. |
| LiftingRange.ThreeLevelsFitInt | sw/board/lifting.c:201-233 | No intermediate value of the three levels leaves 32 bits if the samples are below 2^24. |
| LiftingRange.BandsKept | sw/board/lifting.c:226-229 | Deeper levels do not disturb the detail bands that earlier levels left. |
| Division.ReversedBit | sw/zlib/udiv.c:48-55 | Shifting the n low bits of b into acc puts bit n-1-i of b at place i and the bits of acc above them. |
| Division.Bitrev | sw/zlib/udiv.c:48-55 | Bit i of the result is bit 31-i of the argument. |
| Division.ZerosOfReversed | sw/zlib/udiv.c:101-120 | Leading zeros are the trailing zeros of the reversal. |
| Division.Cltz | sw/zlib/udiv.c:90-121 | The exact number of leading zeros of every nonzero 64-bit word, and 63 for zero. |
| Division.Normalise | sw/zlib/udiv.c:140-160 | No normalising shift drops a bit, the divisor's top bit ends up set, and the quotient is unchanged by shifting both operands. |
| Division.RestoringStep | sw/zlib/udiv.c:161-168 | A turn of the loop decides one quotient bit and keeps dividend = quotient so far * divisor + remainder. |
| Division.ShiftSubtract | sw/zlib/udiv.c:158-168 | The whole loop returns the floor of the quotient. |
| Division.AlignedDivide | sw/zlib/udiv.c:143-153 | The 32-bit shortcut is exact once the divisor's low word is zero. |
| Division.Udivdi3 | sw/zlib/udiv.c:124-170 | floor(a/b) for all 64-bit a and all b > 0, along every path. |
| Division.Umoddi3 | sw/zlib/umod.c:53-61 | The remainder: a = q*b + r with 0 <= r < b. |
| Division.Divdi3 | sw/zlib/udiv.c:211-227 | The quotient rounded towards zero, as a 64-bit signed word, for all a and all b != 0; the one quotient that does not fit wraps. |
| Multiply.CarryLow | sw/board/cputest.c:673-681 | Adding limb by limb with these carries is exact and no sum wraps, low half. |
| Multiply.CarryHigh | sw/board/cputest.c:695-700 | Likewise for the high half. |
| Multiply.SoftMpyuhi | sw/board/cputest.c:652-705 | floor(a*b / 2^32) for all unsigned operands. |
| Multiply.NegateHigh | sw/board/cputest.c:722-724 | Complementing the high word, plus one if the low word is zero, negates the 64-bit product. |
| Multiply.SoftMpyshi | sw/board/cputest.c:707-726 | The signed high word for all operands, the most negative included. |
| FlashSafety.WipTimedAlways | sim/verilated/flashsim.cpp:138-145 | In every run, a write in progress has time left on its timer. |
| FlashSafety.ChangesGranted | sim/verilated/flashsim.cpp:288-408 | In every run, memory changes only when chip select is raised in a program or erase state, and that state was entered by a command taken with write enable set, no write running and no deep power down, with the chip selected ever since. |
| FlashSafety.BitRaised | sim/verilated/flashsim.cpp:151-196 | A 0 becomes a 1 only in a bulk erase or in an erase of the very sector. |
| FlashSafety.DeepPowerDownHolds | sim/verilated/flashsim.cpp:138-145 | In deep power down memory stays. A call leaves it exactly if it takes command 0xab or the timer runs out at that call, and in the second case not if the call takes command 0xb9. |
| FlashSafety.WakesUnasked | sim/verilated/flashsim.cpp:371-386 | A chip that is awake and gets 0xab and then 0xb9 is asleep, and awake again, with no command, once the timer has run out. |
| FlashBytes.MidStep | sim/verilated/flashsim.cpp:229-262 | A clock inside a byte shifts one bit in and one out and does nothing else. |
| FlashBytes.LastStep | sim/verilated/flashsim.cpp:283-608 | The eighth clock acts on the byte. |
| FlashBytes.ByteRuns | sim/verilated/flashsim.cpp:229-608 | Sixteen calls are one byte: what they do, and which bits come out. |
| FlashFrames.BytesRun | sim/verilated/flashsim.cpp:229-608 | A run of bytes at the pins is the same run byte by byte. |
| FlashFrames.SlowReadStreams | sim/verilated/flashsim.cpp:475-488 | Command 0x03 streams the memory from the address on, most significant bit first, from the 33rd clock, for any length inside the memory, any memory size up to 2^24 and whatever is sent meanwhile. |
| FlashFrames.FastReadStreams | sim/verilated/flashsim.cpp:489-501 | Command 0x0b does so from the 41st clock, after a dummy byte. |
| FlashStatus.StatusBits | sim/verilated/flashsim.cpp:469 | The status byte bit by bit: write in progress, write enable, and the protection and error bits in their places. |
| FlashStatus.StatusMasks | sim/verilated/flashsim.cpp:437-469 | The masks 0x9c and 0x60 pick protection and error bits out of it again. |
| FlashStatus.FieldsAlways | sim/verilated/flashsim.cpp:134-609 | In every run the protection and error bits stay in their places. |
| FlashStatus.FieldsAtFirst | sim/verilated/flashsim.cpp:77 | They are there on a new chip. |
| FlashStatus.StatusReads | sim/verilated/flashsim.cpp:319-323 | After 0x05 every byte shows these bits, the most significant first, as they are at its first bit, for any length and while the write timer runs out. |
| FlashCommands.WriteTimes | sim/verilated/flashsim.cpp:151-204 | Raising chip select starts the timer with the command's time: 12 and 15,000 microseconds, 50 microseconds, 32 and 30 seconds at 100 calls each. |
| FlashCommands.BusyUntil | sim/verilated/flashsim.cpp:138-145 | A write is over after exactly the calls on the timer. |
| FlashCommands.WriteStatus | sim/verilated/flashsim.cpp:435-439 | 0x01 with a byte puts its bits 2, 3, 4 and 7 into the status register and nothing else. |
| FlashCommands.WriteConfig | sim/verilated/flashsim.cpp:440-443 | A second byte sets bit 1 of the configuration register and no other. |
| FlashCommands.BulkEraseAll | sim/verilated/flashsim.cpp:190-196 | 0xc7 blanks the whole memory. |
| FlashCommands.NotEnabled | sim/verilated/flashsim.cpp:294-402 | Without the write enable the four writing commands change nothing. |
| FlashCommands.ClearErrors | sim/verilated/flashsim.cpp:186-189 | 0x30 clears the error bits and nothing else. |
| FlashCommands.ConfigReads | sim/verilated/flashsim.cpp:471-474 | 0x35 shows the configuration register as long as it is read. |
| FlashCommands.IdReads | sim/verilated/flashsim.cpp:453-465 | 0x9f shows 0, 0 and 1. |
| FlashCommands.SignatureReads | sim/verilated/flashsim.cpp:589-592 | 0xab shows 0x14 in the fifth byte. |
| FlashCommands.ReadWhileBusy | sim/verilated/flashsim.cpp:483-488 | While a write runs, a read gets no further bytes. || FlashWrites.PowerUp | sim/verilated/flashsim.cpp:67-84 | A new chip is ready for the driver after one call with chip select high. |
| FlashCommands.DoNothing | sim/verilated/flashsim.cpp:352-365 | 0x00, 0xff, 0x50, 0x70 and 0x81 leave memory, registers and timer alone. |
| FlashWrites.Burn | sim/verilated/flashsim.cpp:151-170 | Raising chip select after a page program leaves the old bits ANDed with the data at the addressed cells and every other cell as it was. |
| FlashWrites.BurnPage | sim/verilated/flashsim.cpp:556-568 | The ones that pad the page buffer leave their cells alone. |
| FlashWrites.Erase | sim/verilated/flashsim.cpp:171-179 | Raising chip select after a sector erase blanks exactly the addressed 64 KB. |
| FlashWrites.EraseFrameIff | sim/verilated/flashsim.cpp:583-588 | The four bytes of a sector erase get past the simulator's assertion exactly if the address is below 4 megabytes. |
| FlashWrites.Poll | sim/verilated/flashsim.cpp:466-470 | Each status byte read is the status a byte earlier; an even one means that no write runs, and polling uses up the timer. |
| FlashSim.FlashSim.constructor | sim/verilated/flashsim.cpp:67-84 | An erased chip, idle, with its initial status register. |
| FlashSim.FlashSim.CarryOut | sim/verilated/flashsim.cpp:146-228 | What raising chip select does in every state. |
| FlashSim.FlashSim.OnCommand | sim/verilated/flashsim.cpp:283-424 | The command decoder in one-bit mode. |
| FlashSim.FlashSim.OnData | sim/verilated/flashsim.cpp:425-596 | What a data byte does in every state of one-bit mode. |
| FlashSim.FlashSim.Tick | sim/verilated/flashsim.cpp:134-609 | One call of the simulator on its fields and arrays is one step of the specification whose frames, registers and times the rows above give. |
| ByteSwap.SwapRestores | sw/host/byteswap.cpp:41-86 | A big-endian bus word, swapped, lies in little-endian host memory in flash order. |
| ByteSwap.SwapReverses | sw/host/byteswap.cpp:41-78 | A bus word has its first byte on top; swapping reverses the four bytes and undoes itself. || ByteSwap.WordsDecide | sw/host/flashdrvr.cpp:177-186 | Comparing words decides whether the bytes are equal. |
| FlashDrvr.FlashDrvr.WriteByte | sw/host/flashdrvr.cpp:69-73 | A byte written to the configuration port is one byte at the pins, and the byte received is the chip's output register. |
| FlashDrvr.FlashDrvr.FlWait | sw/host/flashdrvr.cpp:65-76 | Polling ends, memory is untouched, and the chip is ready. |
| FlashDrvr.FlashDrvr.VerifyErased | sw/host/flashdrvr.cpp:101-119 | The read-back accepts exactly the sectors that are all ones. |
| FlashDrvr.FlashDrvr.EraseSector | sw/host/flashdrvr.cpp:78-123 | For every address in the window: the simulator's assertion stops it exactly from 4 megabytes on; otherwise the sector that holds the address is blank, nothing else changed, and verification succeeds exactly if the 64 KB read from the address are. |
| FlashDrvr.FlashDrvr.PageProgram | sw/host/flashdrvr.cpp:125-189 | The page's cells are ANDed with the data whether or not the page was skipped as blank; verification succeeds exactly if the data is there. |
| FlashDrvr.Gather | sw/host/flashdrvr.cpp:137-144 | The page's words, and the blank flag exactly if every byte is 0xff. |
| FlashDrvr.Scan | sw/host/flashdrvr.cpp:211-227 | An erase is asked for exactly if some byte is out of programming's reach; otherwise everything before `newv`, or everything if it is 0, matches. |
| FlashDrvr.FlashDrvr.Pages | sw/host/flashdrvr.cpp:241-256 | From `newv` to the end of the sector or of the data, every byte takes its value, and no other byte changes. |
| FlashDrvr.FlashDrvr.WriteSector | sw/host/flashdrvr.cpp:197-256 | One sector ends up as it should, on the matching, the programming and the erasing path; it is stopped exactly if it has to be erased and lies at or above 4 megabytes. |
| FlashDrvr.FlashDrvr.Sectors | sw/host/flashdrvr.cpp:197-257 | The sectors are done one after the other, up to the first that stops the simulator. |
| FlashDrvr.FlashDrvr.Write | sw/host/flashdrvr.cpp:191-262 | On the bit-serial chip, for every word-aligned place in the 16 MB window: the write is stopped by the simulator's assertion exactly if some sector at or above 4 megabytes has to be erased, with every sector below that one done. Otherwise it ends and returns true; each byte of memory is then the data where there is data, blank where its sector had to be erased, and otherwise as before; the chip is ready and write-disabled. |
| FlashGoal.UntouchedSector | sw/host/flashdrvr.cpp:197-198 | Sectors without data are left as they were. |
| FlashGoal.ClearingKeepsAll | sw/host/flashdrvr.cpp:214-227 | Data that only clears bits costs no byte around it. |
| FlashGoal.StuckByteBlanks | sw/host/flashdrvr.cpp:231-239 | One byte that needs a bit set blanks the rest of its sector. |
| Uart.SetupDecodes | sim/verilated/uartsim.cpp:122-132 | Every configuration is what its setup word decodes to, field by field, whatever bits 30 and 31 are. |
| Uart.UartSim.Receive | sim/verilated/uartsim.cpp:160-201 | The receiver's half of a tick on its fields. |
| Uart.UartSim.Transmit | sim/verilated/uartsim.cpp:203-260 | The transmitter's half of a tick on its fields. |
| Uart.UartSim.NetTick | sim/verilated/uartsim.cpp:155-260 | Both halves together. |
| UartLoop.FrameShape | sim/verilated/uartsim.cpp:212-234 | The transmit register holds a start bit, the data bits lowest first, the parity bit if configured, and ones from there on. |
| UartFrames.FrameBits | sim/verilated/uartsim.cpp:212-234 | Every bit of a frame: start bit, data, parity bit fixed or computed, and ones from there on. |
| UartFrames.ParityRightIff | sim/verilated/uartsim.cpp:218-232 | For a byte that fits the data bits, data and computed parity bit have the parity asked for exactly if there are not six data bits. |
| UartFrames.LineLevels | sim/verilated/uartsim.cpp:203-260 | From the tick that takes a byte on, bit i of its frame is on the line from tick i * divisor for the divisor's ticks, whatever is offered; then the line is high and the transmitter idle. |
| UartFrames.HeardBits | sim/verilated/uartsim.cpp:174-178 | What the receiver delivers for a byte are the eight frame bits after the start bit, with zeros for those a short frame does not have. || UartLoop.InvStep | sim/verilated/uartsim.cpp:155-260 | Every tick keeps the relation between the sender's bit and the receiver's sample point. |
| UartLoop.LoopbackSafe | sim/verilated/uartsim.cpp:155-260 | At every tick of every run the bytes delivered are the bytes sent, in order, each as its frame bits give it, with at most two still on the way, for every divisor, parity and stop setting and any gaps. |
| UartLoop.Loopback | sim/verilated/uartsim.cpp:155-260 | After one frame time, one more bit period and two ticks without an offer all of them have been delivered. |
| UartLoop.MatchExact | sim/verilated/uartsim.cpp:174-178 | With 8 data bits a delivered byte is the byte sent. |
| ByteLanes.MaskMerges | sim/verilated/memsim.cpp:109-116 | Masking merges the selected byte lanes. |
| ByteLanes.LanesByBytes | sim/verilated/memsim.cpp:109-116 | Byte by byte, the merge has the data where the select bit of that byte is set. || ByteLanes.Merge | sim/verilated/memsim.cpp:107-137 | The write path stores the lane-wise merge, with and without the full-word shortcut. |
| MemSim.RoundUp | sim/verilated/memsim.cpp:54-62 | The smallest power of two that is large enough. |
| MemSim.Places | sim/verilated/memsim.cpp:117-118 | The masked head and tail are the slots of this call and of the call one delay earlier, unsigned wrap included. |
| MemSim.MemSim.constructor | sim/verilated/memsim.cpp:52-68 | Buffers of the right size with no acknowledge in them. |
| MemSim.MemSim.Apply | sim/verilated/memsim.cpp:104-146 | The call one delay ago is acknowledged now exactly if it was a request, once and in order, and the data are, byte by byte, what was stored last at its address up to and including its own write. |
| MemLaws.ReplyAnswers | sim/verilated/memsim.cpp:138 | The reply of the model is that word. |
| MemLaws.AnswerUnique | sim/verilated/memsim.cpp:138 | And it is the only one. |
| MemLaws.ReadAfterWrite | sim/verilated/memsim.cpp:122-138 | A call answers with the whole word written last at its address modulo the size; a write with its own. |
| MemLaws.NeverWritten | sim/verilated/memsim.cpp:138 | Where nothing was written, the initial word comes back. |
| MemSpec.RepliesPrefix | sim/verilated/memsim.cpp:117-133 | Replies given are a prefix of the replies owed, short by no more than the window. |
| SdramSpec.PackInjective | sim/verilated/sdramsim.cpp:260-265 | Row, bank and column are packed without loss, and stay inside the array for rows below 4096. |
| SdramSpec.WordAtIsLastWritten | sim/verilated/sdramsim.cpp:179-196 | The flat memory that reads are compared with holds at each address the last word put there. |
| SdramSpec.HeadDecides | sim/verilated/sdramsim.cpp:152-156 | Testing the one deadline at `m_refresh_loc` is testing them all. |
| SdramSpec.RingRefresh | sim/verilated/sdramsim.cpp:205-211 | A refresh keeps the deadlines in cyclic order, for any ring size. |
| SdramSpec.RingTick | sim/verilated/sdramsim.cpp:152-153 | So does a clock. |
| SdramSpec.MemoryStep | sim/verilated/sdramsim.cpp:179-196 | Both beats of a write burst land in the flat memory at their own clocks. |
| SdramSpec.QueueStep | sim/verilated/sdramsim.cpp:198-200 | The read queue keeps the words of every read of the last four clocks in their places. |
| SdramPins.ReturnedAnswers | sim/verilated/sdramsim.cpp:198-316 | What the queue returns is, in pin levels alone, the word stored last at the address of the read, and at the next one. |
| SdramPins.ReadAfterWrite | sim/verilated/sdramsim.cpp:253-316 | A word written at a row, bank and column, or by the second beat at the next column, is what a later read of that place brings three or four clocks later. |
| Sdram.TwoClocks | sim/verilated/sdramsim.cpp:156-161 | A bank asked to open takes transfers two clocks later and stays open; one asked to close is idle two clocks later. || Sdram.SdramSim.constructor | sim/verilated/sdramsim.cpp:113-147 | The powered-up device satisfies the invariant. |
| Sdram.SdramSim.IssueWrite | sim/verilated/sdramsim.cpp:253-286 | A write command. |
| Sdram.SdramSim.IssueRead | sim/verilated/sdramsim.cpp:287-316 | A read command. |
| Sdram.SdramSim.IssueControl | sim/verilated/sdramsim.cpp:205-250 | Refresh, precharge and activate. |
| Sdram.SdramSim.Clock | sim/verilated/sdramsim.cpp:151-332 | In pin levels: refresh renews the deadline at the location and moves on; precharge closes the bank or all of them; activate sets the row; a write puts its first word at row, bank and column; address bit 10 closes after a transfer; and for any run with transfers two clocks apart a read returns, exactly 3 and 4 clocks later, the words stored last at its row, bank and column and at the next column. Open times follow, and no refresh deadline has passed. |
| HexText.AddressInverts | sw/host/hexbus.cpp:308-314 | Reading the eight digits of an address gives it back. |
| HexText.ShortestInverts | sw/host/hexbus.cpp:203-212 | Reading `%x`, or nothing for zero, gives the word back. |
| HexText.DigitsInOrder | sw/host/hexbus.cpp:308-314 | The digits are 0 to 9 and a to f, the most significant first. |
| HexText.ShortestIsPadded | sw/host/hexbus.cpp:203-212 | The short form has the same digits and no leading zero. || HexbusSpec.ReadsTokens | sw/host/hexbus.cpp:438-526 | Reading character by character is reading word by word, for every stream of command words with or without white space between them. |
| HexText.SpaceCodes | sw/host/hexbus.cpp:509-519 | White space is the blank and the codes 9 to 13. |
| HexbusReads.FirstDecides | sw/host/hexbus.cpp:470-508 | The first reply, error or third idle decides the outcome of `readword`, and nothing else does. |
| HexbusReads.ThirdIdle | sw/host/hexbus.cpp:492-498 | A read gives up at the third idle with address 0. |
| HexbusReads.ReadsAccount | sw/host/hexbus.cpp:470-508 | Over any words, acknowledges are counted, a notice raises the interrupt flag, an error the error flag and its address, a reset forgets the address, and each reply or acknowledge counts the address up by four. || HexbusReads.ServedRead | sw/host/hexbus.cpp:351-403 | Over a stream that serves the read, with interrupt notices, unknown letters, address echoes and up to two idles a word in between, the words come back in order and the address ends behind the last one. |
| HexbusReads.FreshBefore | sw/host/hexbus.cpp:438-526 | A new client finds its first reply whatever its uninitialised space flag holds. |
| Hexbus.Hexbus.Dispatch | sw/host/hexbus.cpp:470-508 | What each command letter does to the client's fields. |
| Hexbus.Hexbus.ReadWord | sw/host/hexbus.cpp:438-526 | The parser loop on the client's fields. |
| Hexbus.Hexbus.ReadV | sw/host/hexbus.cpp:351-403 | The requests sent, the buffer filled, the address thrown on a fault, and which of its exits is taken. |
| Hexbus.ServedReadCompletes | sw/host/hexbus.cpp:388-399 | On a serving line the buffer holds the words and the mismatch exit is not reached. |
| Hexbus.ThrowsAt | sw/host/hexbus.cpp:379-381 | A fault throws the address of the first word not fetched. || Hexbus.AddressArrives | sw/host/hexbus.cpp:298-334 | The address command sets at its reader the address and the increment flag the client assumes. |
| Hexbus.CommandText | sw/host/hexbus.cpp:308-371 | The characters of a read command are those command words, for any number of requests. |
| Hexbus.AddressOmittedIff | sw/host/hexbus.cpp:302-305 | The address is left out exactly when it is set and counting up. |
| Hexbus.WritesInvert | sw/host/hexbus.cpp:203-211 | Every word written can be read back from its text. |
| LockSpec.StepInv | sw/board/lockcheck.c:54-84 | Every statement of every task keeps the invariant. |
| LockSpec.LockWorks | sw/board/lockcheck.c:54-84 | For any number of tasks and every schedule: one holder at a time, `atomic` is 1 exactly while there is one, no task sees a failure, every round makes five checks, and a task at its system call has counted to 1024. |
| LockSpec.FailureReported | sw/board/lockcheck.c:60-80 | From any state, a task that finds another owner or the lock not taken reports -1, over every schedule. |
| LockRounds.SweepStalls | sw/board/lockcheck.c:116-125 | A sweep that brings no task on finds the lock free and moves every running task from its test to an attempt. |
| LockRounds.SweepProgress | sw/board/lockcheck.c:112-129 | Every sweep that finds a running task makes progress. |
| Lockcheck.Board.constructor | sw/board/lockcheck.c:92-107 | The tasks as `main` sets them up. |
| Lockcheck.Board.StepTask | sw/board/lockcheck.c:54-84 | One statement of `user_task` on the shared variables. |
| Lockcheck.Board.SweepTasks | sw/board/lockcheck.c:115-126 | One sweep of the stepping loop. |
| Lockcheck.Board.Judge | sw/board/lockcheck.c:133-144 | Success unless some task left -1. || Lockcheck.Board.RunTasks | sw/board/lockcheck.c:112-138 | The stepping loop ends with every task trapped at 1024 loops, the lock free, and success reported. |

## Left out

- Sockets, polling, terminals, files and pins: a connection is a byte sequence, a bus line a character sequence.
  What happens after a connection closes is not modelled; in `Uart.UartSim.NetTick` a byte is offered or not.
- `fdtick` of the UART differs from `nettick` only in how bytes are read and written and has no model of its own.
- Lifting.Lifting: as written, widths 16 and 8 are excluded, because `ilift` on a row of four reads `b` unset.
- FlashSim.FlashSim.Tick: calls that take commands 0x32, 0xbb or 0xeb are excluded; the dual and quad modes they
  lead into are not modelled (`FlashSpec.Step` is undefined there), and the driver uses none of them.
- Flash: delay lines (`simtick`); the bit counter's wrap-around after 2^32 clocks of one frame.
- FlashDrvr.FlashDrvr.Write: the chip has to be idle at the start, because the driver does not wait first; the data
  has to be word-aligned, because otherwise the driver compares bytes of a buffer that it filled by whole words only.
- FlashCommands.IdReads: stops after three bytes, because a fifth byte of the frame makes the source shift by -8.
- FlashFrames.SlowReadStreams: stops one byte short of the end of memory, because the simulator fetches the next
  byte early and would read outside its array.
- FlashFrames.FastReadStreams: stops there for the same reason.
- Idle calls with chip select high between two port accesses; they only run the write timer down.
- SDRAM: byte masks (the first beat of a write ignores them), the power-up sequence, and rows from 4096 on.
- Sdram.SdramSim.Clock: activating a bank number above 3 is excluded, because the simulator then writes outside its arrays.
- The bulk `load` and `set` back doors of the simulators.
- Hexbus: the waiting of `writev` for acknowledges, `readidle`, `m_lastaddr` after a write, and idle characters
  0x7f on the line, which `lclreadcode` does not drop.
- HexbusReads.ServedRead: streams with acknowledges, resets or foreign addresses between the replies are excluded,
  because they move the address the client keeps.
- Lock: memory ordering (one processor), the processor's exception flag, and what tasks do after their system call.
- `sw/zlib/emulate.c`, `zopcodes.cpp`, the loaders, the scope and debugger programs, the Verilog and the assembly.
