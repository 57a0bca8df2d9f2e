# Device drivers for a battery gauge and for cellular modems, verified

Dafny models of the two drivers this repository is built on, each set against a small explicit
model of the device at the other end, with proofs of what the drivers keep over whole runs.

**The battery gauge.** A BQ27441 on I2C. Its configuration memory is reached through a 32-byte
window, guarded by a checksum, inside a CONFIGUPDATE handshake, on a chip that may be sealed.
`GaugeChip` is the chip and the bus, `BatteryGauge` the driver class with the source's branches,
polling loops and constants, `GaugeRuns` what holds over runs of public calls: the window protocol is
a flat byte array per sub-class, a sealed chip is one that would seal itself, an idle chip is asleep,
and a write is whole or not at all whichever transfer fails.

**The AT sockets.** u-blox modems on a serial link. Seven socket slots are changed by API calls and by
unsolicited result codes (URCs) that run inside any wait for a reply. `SocketProtocol` is the table and
the modem as a state machine over every interleaving of arrivals, closes, commands and deliveries, with
one FIFO channel; `AtExchange` is one exchange with the modem, as states; `AtSockets` is the driver class
on both: open, close, bind, receive, URC handlers and the event thread. `AtSend` and `N2xxSend` are the
two send paths, `HexCodec` the Base16 codec (section 8 of RFC 4648), `LineReader` the character reader
under the URC handlers, `LockDiscipline` the AT timeout under the recursive lock with any number of
threads, and `SimCard` the SIM bring-up and the SIM changes put off until the next connect (section 8.3
of 3GPP TS 27.007). `Bytes` holds machine integers and sequence splicing.

`dafny verify dfyconfig.toml` checks the whole project.

## How to read the contracts

*Gauge.* `World` is what a caller can see between public calls; `Succeeds(call, w, w')` says what a call
that returned true did. `ReadSpec` and `WriteSpec` specify the extended read and write for every
outcome. The bus keeps a log of its transfers; `GuardedFrom(log, n)` says that every attempt to write
block data or a checksum from entry `n` on comes after sight of CONFIGUPDATE set, `SealQuery` that a
seal query stands in it and what it showed, `ToldToSeal` and `EndsAsleep` that SEALED or SET_HIBERNATE
was sent, got through or not, and `Vouched` that the chip's checksum of a block was read. A bus may be
`reliable`; on such a bus every call succeeds whose arguments fit, if the chip lets the driver in
(`Opens`) and, for calls that write, follows CONFIGUPDATE requests within the polls (`Writable`); a chip
of the right firmware that opens makes a driver ready (`Welcomes`).

*Sockets.* `Consistent(s, h)` is the pending-count refinement: apply the undelivered messages, in order,
to what the host knows of handle `h` (`Replay`), and the result is the modem's unread count, or the host
no longer holds the handle. `Inv` asks it of every handle, that handles in use are distinct, and that what
the channel says of a handle is true of the modem (`Told`). `Orderly` singles out the steps of the host
that keep `Inv`, and for every step but a bind it is the exact condition (`StepIsRightIff`).
In the class, `Good()` is `Inv` with no reply outstanding, for a modem that keeps to the protocol
(`honest`). A dishonest modem may say anything at any time; termination, bounds, lock depth and timeout
hold for it all the same. `Took(m, m', h, data)` says that between two modem states one handle lost `data`
from the front of its unread bytes and every other handle lost nothing. The link has a `clock`, which
advances as URCs are waited for. It may be `reliable` (nothing is lost on the way) and `prompt` (what is on
its way comes before a wait is over), and the modem one that `grants` sockets to whoever asks and is
`generous` with the bytes it has. With a reliable link and a granting modem, opening, closing, binding and
receiving fail only for a full table, an unknown protocol, a handle that is gone or, when receiving, after
the timeout, which on a prompt link means that there was nothing to read.

*SIM.* `Answers` is all that modem and SIM may answer during a call; the contracts say for every value of it
what the call does.

## What is assumed

- Chip: a sealed chip does not acknowledge the block-data registers and obeys only status and hibernate
  words, plus its key sent twice; the window commits when the matching checksum is written in
  CONFIGUPDATE mode; SOFT_RESET leaves that mode and seals the chip if the reseal bit (bit 7 of
  sub-class 82, offset 2) is set; SEALED sets both the seal and the reseal bit; the CONFIGUPDATE flag
  follows a request after some number of waits. These follow lines 235-236, 414-416, 1224-1226 and 1256
  of `battery-gauge-bq27441/bq27441.cpp` and section 3.1 of TI SLUUAC9A; that SEALED sets the reseal bit
  is an assumption about the chip alone.
- Chip: it answers FW_VERSION with its firmware version.
- Bus: a transfer that fails has no effect, one that succeeds is exact.
- Modem: unread bytes per handle stay below 2^31; a read gives up at least one byte of a queue that has
  any, and never more than was asked for; a reply and the OK after it are one message.
- `char` is unsigned, as in `BUILD/UBLOX_C030_U201/GCC_ARM/.profile-cxx`.

## Where code and intention part

- `getCurrent` never reports what it reads: the result is always 0 (`GetCurrent`).
- `readExtendedData` and `writeExtendedData` keep only eight bits of the block number, so offsets wrap
  every 8192 bytes (`BlockAddress`).
- `socket_bind` puts the old handle and the old pending count back over whatever the modem created.
  `BindIsRightIff` gives the exact condition: the modem reissued the number and nothing was pending, or
  a message on its way makes up for the difference.
  `BindToAnotherNumber` is a run that ends with a bind of the other kind.
- The reply to AT+USOCL getting lost leaves the slot in use; when the modem hands the number out again
  two slots hold it (`LostCloseDuplicatesHandle`). `MissIsRightIff` says of every reply when it may be
  skipped: a reply to AT+USOCR always; any other if no slot holds its handle; a read reply if it is
  empty or a later message corrects the count; a reply to AT+USOCL if the next message about the handle
  reports it lost.
- The parser of the reply to AT+USORD ignores the handle in it, and the OK to AT+USOCL carries none, so a
  reply that was given up on is taken by the next request of its kind, for whatever socket.
  `MisreadIsRightIff` says when that does no harm: the socket that asked first does not miss the reply, and
  the one that takes it is free, or the reply is empty, or its count covers the bytes, with those of the
  read replies still to come, until a message corrects it. An OK to AT+USOCL may be taken for another
  socket exactly when it may be skipped (`MiscloseIsRightIff`). `LateReplyMisread` is a run to a state in
  which the next read takes such a reply and the table is wrong. The runs proved about are those in which
  replies are skipped or taken late only without harm.
- A connection reported lost (+UUPSDD) for the socket being read clears `pending` before the reply is
  accounted for, and the subtraction then wraps: `LostDuringReadWraps` is such a run, ending with a count
  of 0xFFFFFFFF. `SubtractionIsExactIff` gives the condition, for late replies too: the subtraction is
  exact exactly when the slot still holds the handle the reply names, or its count covers the bytes read.
  The slot that was freed keeps its meaningless count until it is opened again.
- The N2xx send loop makes headway in every turn exactly if each count reported is at least one and
  together they are no more than was asked for (`ProgressCondition`); an answer of 0 makes it spin, and a
  count too high wraps what is left.
- The N2xx receive call copies the timeout before it takes the lock, which can leave the event thread's
  10 ms in force (`SavingOutsideTheLockLeaksTimeout`). `N2xxReceiveIsRightIff` gives the condition: every
  run from the copy on finds the timeout restored whenever the lock is free exactly when the timeout in
  force at the moment of the copy was the constructor's, as it is when the lock is free then.
- `advancedReset` takes a seal query without an answer for an unsealed chip. A sealed chip then ignores
  RESET and the call returns true with the memory as it was (`LostQuerySkipsReset`); `AdvancedReset` says
  that this is the one case in which a true result does not mean a reset.
- `socket_recv` and `socket_recvfrom` drop what they have in the buffer, and what a read cost the modem, when
  a later read fails: the error carries no count (`SocketRecv`, whose `got` and `lost` name both).
- `getRemainingPercentage` sends a chip it has just woken back to sleep before it reads the register, where
  its comment says that it wakes it (`GetRemainingPercentage`).
- The comment that `socket_recv`'s read "should not fail" is right as long as no close or loss of that
  socket is on its way: `SocketRecv` fails on a reliable link only when the handle is gone.

## Model

| member | source | states |
|---|---|---|
| GaugeChip.GuardMeansOneBlock | battery-gauge-bq27441/bq27441.cpp:134-137 | for a length of one or more the guard on the quotients holds exactly when offset modulo 32 plus length is at most 32; a length of 0 that passes stays in bounds too |
| GaugeChip.BlockAddress | battery-gauge-bq27441/bq27441.cpp:288 | the block number truncated to a byte and the offset in the block address the offset modulo 8192 |
| GaugeChip.BurstFillsWindow | battery-gauge-bq27441/bq27441.cpp:307-310 | the contiguous write lays the data over the window and reaches no other register, in particular not the checksum |
| GaugeChip.CommitIsFlatWrite | battery-gauge-bq27441/bq27441.cpp:311-316 | committing the overlaid block equals a plain write of the data at the flat address |
| GaugeChip.ChecksumIs | battery-gauge-bq27441/bq27441.cpp:86-123 | checksum and bytes add up to 0xff modulo 256, every byte counted once |
| BatteryGauge.BlockCommits | battery-gauge-bq27441/bq27441.cpp:302-316 | the burst and then the checksum of the overlaid block commit exactly the flat write of the data |
| BatteryGauge.FitsInClass | battery-gauge-bq27441/bq27441.cpp:251 | a range that passes the guard lies in one block and in the 8192 bytes of its sub-class, so neither copy overruns its buffer |
| BatteryGauge.FitsIff | battery-gauge-bq27441/bq27441.cpp:134-137 | the driver's own test accepts exactly the ranges of at most 32 bytes within one block, whole blocks included, and of the empty ones all but those at the start of a later block |
| BatteryGauge.ReadSliceIs | battery-gauge-bq27441/bq27441.cpp:177-180 | the slice that a read stands for is bytes at their places, offset modulo 8192 |
| BatteryGauge.WriteSliceIs | battery-gauge-bq27441/bq27441.cpp:302-316 | the slice write puts each byte at its place and leaves every other byte of every sub-class alone |
| BatteryGauge.SettingsAt | battery-gauge-bq27441/bq27441.cpp:607-640 | where OpConfig, the reseal bit and the two initial settings lie, and the bytes they get |
| BatteryGauge.CorruptionShows | battery-gauge-bq27441/bq27441.cpp:162-171 | a block with one byte read wrong never has the checksum of the block |
| BatteryGauge.BatteryGaugeBq27441.constructor | battery-gauge-bq27441/bq27441.cpp:573-579 | a new driver has no bus, is not ready and has its gauge off |
| BatteryGauge.BatteryGaugeBq27441.GetTwoBytes | battery-gauge-bq27441/bq27441.cpp:62-83 | little-endian pair of registers, read off a chip that is not changed; works on a reliable bus |
| BatteryGauge.BatteryGaugeBq27441.ComputeChecksum | battery-gauge-bq27441/bq27441.cpp:86-123 | 0xff minus the byte sum modulo 256 of a 32-byte block |
| BatteryGauge.BatteryGaugeBq27441.IsSealed | battery-gauge-bq27441/bq27441.cpp:429-455 | true only of a sealed chip, and exactly then on a reliable bus; no block data is written; the seal query is in the log, with this answer |
| BatteryGauge.BatteryGaugeBq27441.ReadSealedBit | battery-gauge-bq27441/bq27441.cpp:434-452 | the answer, if one came, is the chip's seal; the three transfers of the query are the first in the log |
| BatteryGauge.BatteryGaugeBq27441.SealChip | battery-gauge-bq27441/bq27441.cpp:459-492 | true only if SEALED took effect, and otherwise SEALED took effect or nothing did; true exactly if the seal query that follows SEALED came through and showed a sealed chip |
| BatteryGauge.BatteryGaugeBq27441.UnsealChip | battery-gauge-bq27441/bq27441.cpp:496-531 | true only of a chip left unsealed; succeeds with the right key; any other effect is that of the code as a control word; true exactly if the seal query that follows the two codes came through and showed an unsealed chip |
| BatteryGauge.BatteryGaugeBq27441.OpenUp | battery-gauge-bq27441/bq27441.cpp:143-144 | unseals a chip that is seen to be sealed: what it may change, what it means for the chip to be open, and that a reliable bus and the key open every chip; the seal query is in the log, with this answer; open exactly if the second query showed it |
| BatteryGauge.BatteryGaugeBq27441.PollUpdate | battery-gauge-bq27441/bq27441.cpp:264-272 | one poll shows the flag if it is answered and nothing otherwise, and lets the chip settle |
| BatteryGauge.BatteryGaugeBq27441.EnterConfigUpdate | battery-gauge-bq27441/bq27441.cpp:259-274 | true only after CONFIGUPDATE was seen set in this call, a failed poll being no evidence; on a reliable bus true exactly if the flag follows within 200 polls |
| BatteryGauge.BatteryGaugeBq27441.LeaveConfigUpdate | battery-gauge-bq27441/bq27441.cpp:318-335 | true only if the last thing seen is CONFIGUPDATE clear; then the chip is sealed exactly if its reseal bit is set; on a reliable bus true exactly if the flag follows within 200 polls |
| BatteryGauge.BatteryGaugeBq27441.SelectBlock | battery-gauge-bq27441/bq27441.cpp:146-161 | the window shows the selected block, which a sealed chip refuses |
| BatteryGauge.BatteryGaugeBq27441.BlockIsSound | battery-gauge-bq27441/bq27441.cpp:162-171 | any block is compared with the chip's checksum of the window; on a reliable bus it passes exactly if the checksums agree |
| BatteryGauge.BatteryGaugeBq27441.LoadBlock | battery-gauge-bq27441/bq27441.cpp:275-301 | the block read is the selected block of the chip's memory, and nothing was changed; the chip's own checksum of it was read |
| BatteryGauge.BatteryGaugeBq27441.ReadWindow | battery-gauge-bq27441/bq27441.cpp:146-185 | on an unsealed chip the bytes read are the slice of the flat memory |
| BatteryGauge.BatteryGaugeBq27441.OpenAndRead | battery-gauge-bq27441/bq27441.cpp:143-185 | unsealing and reading: the slice if true; whether the chip was seen to be sealed is in the log |
| BatteryGauge.BatteryGaugeBq27441.ReadExtendedData | battery-gauge-bq27441/bq27441.cpp:127-233 | the slice of the flat memory or false; an unsealed chip is untouched, a sealed one is sealed again, with the reseal bit set as the only change; on a reliable bus with the key, true exactly if the range lies in one block; a chip seen to be sealed is always told to seal itself again, and on a reliable bus is sealed as before, also on failure; nothing is sent for a range that does not fit |
| BatteryGauge.BatteryGaugeBq27441.CommitBlock | battery-gauge-bq27441/bq27441.cpp:302-316 | the memory becomes the flat write of the data if true, and is untouched if false: the checksum sent is that of the window after the partial write |
| BatteryGauge.BatteryGaugeBq27441.WriteWindow | battery-gauge-bq27441/bq27441.cpp:259-335 | whole or not at all; block data only after CONFIGUPDATE was seen set; true only with CONFIGUPDATE seen clear last; on a reliable bus true exactly if CONFIGUPDATE follows within 200 polls |
| BatteryGauge.BatteryGaugeBq27441.OpenAndWrite | battery-gauge-bq27441/bq27441.cpp:255-345 | unsealing and writing: whole or not at all, and whether the chip was seen to be sealed is in the log |
| BatteryGauge.BatteryGaugeBq27441.WriteExtendedData | battery-gauge-bq27441/bq27441.cpp:239-424 | whole or not at all whatever transfer fails; nothing outside the range changes but the reseal bit on a failed call to a sealed chip; true means written, out of CONFIGUPDATE and sealed exactly if the reseal bit is set; guarded by sight of CONFIGUPDATE; on a reliable bus with the key, true exactly if the range lies in one block and the flag follows within 200 polls; a chip seen to be sealed is told to seal itself again whenever the call fails, and on a reliable bus is then sealed |
| BatteryGauge.BatteryGaugeBq27441.MakeAdcReading | battery-gauge-bq27441/bq27441.cpp:536-552 | CLEAR_HIBERNATE is sent and nothing else, under the call's own lock |
| BatteryGauge.BatteryGaugeBq27441.SetHibernate | battery-gauge-bq27441/bq27441.cpp:556-567 | true exactly if the chip received SET_HIBERNATE |
| BatteryGauge.BatteryGaugeBq27441.WriteInitialConfig | battery-gauge-bq27441/bq27441.cpp:613-634 | Sleep Current and Hibernate V at their maxima, every other byte kept; succeeds on a reliable bus if the chip, as it is at the call, follows requests in time and opens to the key now and after it reseals itself, and only if it follows them in time |
| BatteryGauge.BatteryGaugeBq27441.Init | battery-gauge-bq27441/bq27441.cpp:587-658 | a first init is ready only with the initial configuration written, seal agreement in force and the chip told to hibernate, whatever the gauge flag; without a bus nothing changes but bus, address and code; on a reliable bus a chip with firmware 0x0109 that opens to the seal code always makes the driver ready, and no other firmware makes a driver ready that was not; FW_VERSION is the first thing sent; the address is shifted; a ready driver stops being ready only by a SET_HIBERNATE that fails |
| BatteryGauge.BatteryGaugeBq27441.ReadFirmware | battery-gauge-bq27441/bq27441.cpp:595-603 | FW_VERSION is sent and the answer is the firmware version of the chip |
| BatteryGauge.BatteryGaugeBq27441.EnableGauge | battery-gauge-bq27441/bq27441.cpp:661-712 | true only with hibernation cleared and SLEEP as asked for, the other bits of OpConfig kept; always succeeds on a reliable bus with a chip that can be written to; whatever the outcome the gauge counts as on exactly if it was or CLEAR_HIBERNATE got through |
| BatteryGauge.BatteryGaugeBq27441.ChangeOpConfig | battery-gauge-bq27441/bq27441.cpp:681-703 | OpConfig read earlier is written back with the bytes given, seal agreement in force |
| BatteryGauge.BatteryGaugeBq27441.InsertBattery | battery-gauge-bq27441/bq27441.cpp:755-766 | BIE is cleared and BAT_INSERT sent after it |
| BatteryGauge.BatteryGaugeBq27441.SetSleep | battery-gauge-bq27441/bq27441.cpp:676-704 | bit 5 of the low byte as asked for and nothing else; an OpConfig that is right already is not written; always succeeds on a reliable bus with a chip that can be written to |
| BatteryGauge.BatteryGaugeBq27441.ClearBie | battery-gauge-bq27441/bq27441.cpp:746-774 | bit 5 of the high byte cleared and nothing else, BAT_INSERT sent if that was a change; always succeeds on a reliable bus with a chip that can be written to |
| BatteryGauge.BatteryGaugeBq27441.SetBie | battery-gauge-bq27441/bq27441.cpp:794-816 | bit 5 of the high byte set and nothing else; always succeeds on a reliable bus with a chip that can be written to |
| BatteryGauge.BatteryGaugeBq27441.DisableGauge | battery-gauge-bq27441/bq27441.cpp:715-731 | true: hibernating and off; false: nothing changed; always succeeds on a reliable bus |
| BatteryGauge.BatteryGaugeBq27441.DisableBatteryDetect | battery-gauge-bq27441/bq27441.cpp:740-785 | BIE clear, the other bits kept, BAT_INSERT sent if that was a change; an idle chip told to sleep, also on failure, if the bus is reliable; always succeeds on a reliable bus with a chip that can be written to; an idle chip is told to sleep as the last thing, whatever fails |
| BatteryGauge.BatteryGaugeBq27441.EnableBatteryDetect | battery-gauge-bq27441/bq27441.cpp:788-827 | BIE set, the other bits kept; an idle chip told to sleep, also on failure, if the bus is reliable; always succeeds on a reliable bus with a chip that can be written to; an idle chip is told to sleep as the last thing, whatever fails |
| BatteryGauge.BatteryGaugeBq27441.GetTemperature | battery-gauge-bq27441/bq27441.cpp:870-906 | a tenth of the register at 0x02, truncated, less 273; the transfers are exactly CLEAR_HIBERNATE if the chip was idle, the read, and SET_HIBERNATE if it was idle; never fails on a reliable bus; an idle chip that was woken is told to sleep, whatever fails |
| BatteryGauge.BatteryGaugeBq27441.GetVoltage | battery-gauge-bq27441/bq27441.cpp:909-942 | the register at 0x04; the transfers are exactly CLEAR_HIBERNATE if the chip was idle, the read, and SET_HIBERNATE if it was idle; never fails on a reliable bus; an idle chip that was woken is told to sleep, whatever fails |
| BatteryGauge.BatteryGaugeBq27441.GetCurrent | battery-gauge-bq27441/bq27441.cpp:945-978 | 0, whatever the register at 0x10 held; the transfers are exactly CLEAR_HIBERNATE if the chip was idle, the read, and SET_HIBERNATE if it was idle; never fails on a reliable bus; an idle chip that was woken is told to sleep, whatever fails |
| BatteryGauge.BatteryGaugeBq27441.GetRemainingCapacity | battery-gauge-bq27441/bq27441.cpp:981-1015 | the register at 0x0c; the transfers are exactly CLEAR_HIBERNATE if the chip was idle, the read, and SET_HIBERNATE if it was idle; never fails on a reliable bus; an idle chip that was woken is told to sleep, whatever fails |
| BatteryGauge.BatteryGaugeBq27441.GetRemainingPercentage | battery-gauge-bq27441/bq27441.cpp:1018-1056 | the register at 0x1c; the transfers are exactly CLEAR_HIBERNATE and SET_HIBERNATE if the chip was idle, the read, and SET_HIBERNATE again if it was idle; never fails on a reliable bus; an idle chip that was woken is told to sleep, whatever fails |
| BatteryGauge.BatteryGaugeBq27441.AdvancedGetConfig | battery-gauge-bq27441/bq27441.cpp:1059-1082 | an extended read followed by sleep when idle, and their joint success; on a reliable bus with the key, true exactly if the range fits; an idle chip is told to sleep as the last thing, whatever fails; on a reliable bus the chip is sealed as before |
| BatteryGauge.BatteryGaugeBq27441.AdvancedSetConfig | battery-gauge-bq27441/bq27441.cpp:1085-1108 | an extended write followed by sleep when idle, guarded by sight of CONFIGUPDATE; on a reliable bus with the key, true exactly if the range fits; an idle chip is told to sleep as the last thing, whatever fails; on a reliable bus a failed call leaves a sealed chip sealed |
| BatteryGauge.BatteryGaugeBq27441.AdvancedIsSealed | battery-gauge-bq27441/bq27441.cpp:1173-1191 | true only of a sealed chip, exactly then on a reliable bus; nothing but hibernation changes; an idle chip is told to sleep as the last thing, whatever fails |
| BatteryGauge.BatteryGaugeBq27441.AdvancedSeal | battery-gauge-bq27441/bq27441.cpp:1194-1212 | sealed, with the reseal bit set if the chip was not sealed before, and asleep when idle; always succeeds on a reliable bus; an idle chip is told to sleep as the last thing, whatever fails |
| BatteryGauge.BatteryGaugeBq27441.ClearUpdateStatus | battery-gauge-bq27441/bq27441.cpp:1222-1233 | on an unsealed chip, just the reseal bit is cleared and the chip stays unsealed, though the write ends in a reset |
| BatteryGauge.BatteryGaugeBq27441.ClearSeal | battery-gauge-bq27441/bq27441.cpp:1222-1233 | unsealed with the reseal bit clear and every other byte kept, unless the code given is the word for a reset; succeeds on a sealed chip with its key and a reliable bus |
| BatteryGauge.BatteryGaugeBq27441.AdvancedUnseal | battery-gauge-bq27441/bq27441.cpp:1215-1244 | unsealed for good, and asleep when idle; succeeds on a sealed chip with its key and a reliable bus; an idle chip is told to sleep as the last thing, whatever fails |
| BatteryGauge.BatteryGaugeBq27441.AdvancedReset | battery-gauge-bq27441/bq27441.cpp:1247-1286 | memory back to its power-on contents if the chip was unsealed or was seen to be sealed, untouched if it was sealed and not seen to be; sealed as before; asleep when idle; on a reliable bus with the key it succeeds and resets; the seal query that decides is the one in the log; an idle chip is told to sleep as the last thing, whatever fails; on a reliable bus the chip is sealed as before, also on failure |
| BatteryGauge.BatteryGaugeBq27441.ResetHeld | battery-gauge-bq27441/bq27441.cpp:1255-1274 | the part inside the lock, with the same exact effect on the memory, and its seal query first in the log; a chip that was sealed and opened is told to seal itself again, also when RESET fails |
| BatteryGauge.LostQuerySkipsReset | battery-gauge-bq27441/bq27441.cpp:1255-1268 | for every sealed chip, RESET is acknowledged, changes nothing and passes for success |
| BatteryGauge.SplitWriteIsOneWrite | battery-gauge-bq27441/bq27441.cpp:613-623 | the two one-byte writes either side of the 31/32 boundary equal one two-byte write |
| BatteryGauge.InitWrites | battery-gauge-bq27441/bq27441.cpp:619-634 | the three writes of init fit their blocks and together are one change of the memory |
| BatteryGauge.WithBit5 | battery-gauge-bq27441/bq27441.cpp:681-695 | setting or clearing bit 5 keeps the seven other bits |
| BatteryGauge.ReconfiguredByRead | battery-gauge-bq27441/bq27441.cpp:676-703 | an extended read of OpConfig alone realises the value it found |
| BatteryGauge.ReconfiguredByWrite | battery-gauge-bq27441/bq27441.cpp:681-693 | a read followed by a write of a different value realises that value, with seal agreement in force |
| BatteryGauge.SealedChipUnseals | battery-gauge-bq27441/bq27441.cpp:507-508 | any seal code sent twice to a sealed chip can at most unseal it or change hibernation |
| BatteryGauge.UpdateStatusByte | battery-gauge-bq27441/bq27441.cpp:1223-1229 | the byte at sub-class 82, offset 2 carries the reseal bit at its top, and writing it back without that bit clears just that |
| BatteryGauge.EvidenceGuards | battery-gauge-bq27441/bq27441.cpp:264-276 | once CONFIGUPDATE was seen set in the call, all block writes that follow in it are guarded |
| BatteryGauge.GuardedThenHarmless | battery-gauge-bq27441/bq27441.cpp:417-421 | sealing or hibernating after a guarded write keeps the whole call guarded |
| GaugeRuns.AgreementKept | battery-gauge-bq27441/bq27441.cpp:226-230 | every successful public call but a hard reset or a second init keeps "sealed exactly if the reseal bit is set" |
| GaugeRuns.SealAgreementOverRuns | battery-gauge-bq27441/bq27441.cpp:414-421 | over every run of successful calls the chip is sealed exactly if its reseal bit is set, at each call boundary; a first init establishes it from any state |
| GaugeRuns.StaysUnsealed | battery-gauge-bq27441/bq27441.cpp:1224-1229 | an unsealed chip stays unsealed over every run whose calls neither seal nor store a set reseal bit |
| GaugeRuns.UnsealLasts | battery-gauge-bq27441/bq27441.cpp:1215-1244 | after advancedUnseal succeeds the chip stays unsealed until a later call asks to seal it |
| GaugeRuns.AsleepKept | battery-gauge-bq27441/bq27441.cpp:1073-1079 | each successful public call keeps an idle chip asleep |
| GaugeRuns.AsleepOverRuns | battery-gauge-bq27441/bq27441.cpp:635-637 | over every run of successful calls from an uninitialised driver, a ready driver with its gauge off has a chip whose last hibernate command is SET_HIBERNATE |
| GaugeRuns.ConfigStep | battery-gauge-bq27441/bq27441.cpp:127-233 | one successful configuration call is a plain slice read or write of the flat memory, under seal agreement |
| GaugeRuns.FlatMemoryOverRuns | battery-gauge-bq27441/bq27441.cpp:239-424 | over every run of successful configuration calls the memory is that of plain slice writes and each read returns the slice of it |
| GaugeRuns.SliceOutlives | battery-gauge-bq27441/bq27441.cpp:302-310 | writes that miss a slice leave it as it was |
| GaugeRuns.ReadReturnsLatestWrite | battery-gauge-bq27441/bq27441.cpp:1059-1108 | a read after a write of the same slice returns what was written, however many calls that miss it lie between |
| GaugeRuns.AllOrNothingOverRuns | battery-gauge-bq27441/bq27441.cpp:264-335 | over every run of configuration calls in which any transfer may fail, the memory at each boundary is, reseal bit apart, that of some of the writes in order, with none that returned true missing |
| GaugeRuns.FaultyStepEffect | battery-gauge-bq27441/bq27441.cpp:301-335 | one call, failed or not, leaves the memory as before or as fully written, reseal bit apart |
| GaugeRuns.ResealCommutes | battery-gauge-bq27441/bq27441.cpp:417-421 | sealing in between does not change what later writes do, reseal bit apart |
| HexCodec.HexChar | ublox-at-cellular-interface-n2xx/UbloxATCellularInterfaceN2xx.cpp:500-506 | a digit value below 16 or 0xFF |
| HexCodec.Digit | ublox-at-cellular-interface-n2xx/UbloxATCellularInterfaceN2xx.cpp:342-351 | each of the sixteen characters used decodes to its own index and none is the terminator |
| HexCodec.Alphabet | ublox-at-cellular-interface-n2xx/UbloxATCellularInterfaceN2xx.cpp:342-351 | the digits written are 0-9 and A-F in order, and letters are understood in either case |
| HexCodec.NoOtherDigits | ublox-at-cellular-interface-n2xx/UbloxATCellularInterfaceN2xx.cpp:500-506 | no other character passes for a digit |
| HexCodec.HexOfAt | ublox-at-cellular-interface-n2xx/UbloxATCellularInterfaceN2xx.cpp:348-351 | the text holds the two digits of each byte in turn, the high one first |
| HexCodec.DecodedAt | ublox-at-cellular-interface-n2xx/UbloxATCellularInterfaceN2xx.cpp:515-521 | each byte decoded is sixteen times its first digit plus its second |
| HexCodec.RoundTrip | ublox-at-cellular-interface-n2xx/UbloxATCellularInterfaceN2xx.cpp:340-355 | the text of any bytes is all hex digits and decodes to those bytes |
| HexCodec.CaseDoesNotMatter | ublox-at-cellular-interface-n2xx/UbloxATCellularInterfaceN2xx.cpp:503-504 | texts that differ only in case decode alike, in any mixture |
| HexCodec.BinToHex | ublox-at-cellular-interface-n2xx/UbloxATCellularInterfaceN2xx.cpp:340-355 | the buffer holds the text and a terminator and is untouched beyond it |
| HexCodec.HexToBin | ublox-at-cellular-interface-n2xx/UbloxATCellularInterfaceN2xx.cpp:508-525 | -1 exactly on a null pointer, no room, a character that is no digit, an odd number of digits or too many; otherwise the decoded bytes; never beyond the terminator or the length |
| HexCodec.DecodeInto | ublox-at-cellular-interface-n2xx/UbloxATCellularInterfaceN2xx.cpp:513-524 | the decoding loop on a terminated text, with the same verdicts |
| HexCodec.ReadPair | ublox-at-cellular-interface-n2xx/UbloxATCellularInterfaceN2xx.cpp:515-519 | two digits, the second read only when the first is one and so never beyond the terminator |
| HexCodec.BadPair | ublox-at-cellular-interface-n2xx/UbloxATCellularInterfaceN2xx.cpp:515-518 | stopping at a pair means a character that is no digit or an odd number of digits |
| HexCodec.TextIs | ublox-at-cellular-interface-n2xx/UbloxATCellularInterfaceN2xx.cpp:513 | characters without a terminator, followed by one, are the text of the string |
| HexCodec.ThereAndBack | ublox-at-cellular-interface-n2xx/UbloxATCellularInterfaceN2xx.cpp:340-355 | hex_to_bin of what bin_to_hex wrote returns the number of bytes and the bytes |
| N2xxSend.ProgressCondition | ublox-at-cellular-interface-n2xx/UbloxATCellularInterfaceN2xx.cpp:275-290 | over every sequence of commands the 32-bit count goes down in each turn exactly when every report is at least one byte and they add up to no more than was asked for, and then it is what is left |
| N2xxSend.CountedChunk | ublox-at-cellular-interface-n2xx/UbloxATCellularInterfaceN2xx.cpp:280-289 | a full chunk of which some is taken keeps the count exact and smaller than before |
| N2xxSend.NextTurn | ublox-at-cellular-interface-n2xx/UbloxATCellularInterfaceN2xx.cpp:280-289 | one more command with the next chunk: full chunks still, and what was received are the first bytes up to the part taken |
| N2xxSend.Modem.SendCommand | ublox-at-cellular-interface-n2xx/UbloxATCellularInterfaceN2xx.cpp:321-331 | the modem takes part of the payload the text decodes to, or nothing, and a count reported is the count taken |
| N2xxSend.UbloxATCellularInterfaceN2xx.HexText | ublox-at-cellular-interface-n2xx/UbloxATCellularInterfaceN2xx.cpp:307-315 | the text made of the chunk is its hex text and decodes to it |
| N2xxSend.UbloxATCellularInterfaceN2xx.SendTo | ublox-at-cellular-interface-n2xx/UbloxATCellularInterfaceN2xx.cpp:302-338 | at most one command goes out and its payload is the text of exactly the chunk; with memory and an answer some of it is taken |
| N2xxSend.UbloxATCellularInterfaceN2xx.SendNext | ublox-at-cellular-interface-n2xx/UbloxATCellularInterfaceN2xx.cpp:280-290 | one turn: everything offered so far are full chunks, what was received is the front of the data up to the part taken, and with an answer and memory some of it is |
| N2xxSend.UbloxATCellularInterfaceN2xx.SocketSendTo | ublox-at-cellular-interface-n2xx/UbloxATCellularInterfaceN2xx.cpp:253-300 | terminates; returns the size if the modem always answers and the buffer can be had, and otherwise the size or a device error; decoding every payload and joining the accepted prefixes gives the caller's data, or a prefix of it on failure; the 32-bit count never wraps; every command offered the next 512 bytes after what had been received, or all that was left, as hex text |
| N2xxSend.ChunkReceived | ublox-at-cellular-interface-n2xx/UbloxATCellularInterfaceN2xx.cpp:288-289 | what was received so far, followed by the part taken, is the caller's data up to there |
| LineReader.LineIsTextBeforeEnd | ublox-cellular-base/UbloxCellularBase.cpp:474-498 | with the end within the first `size` characters the line is exactly the text before it, less one CR before a newline |
| LineReader.LineAndRest | ublox-cellular-base/UbloxCellularBase.cpp:474-498 | for every stream: which characters make the line, where a full buffer and a CR before a newline cut it, and how many are consumed |
| LineReader.Stopped | ublox-cellular-base/UbloxCellularBase.cpp:480-486 | when the loop stops it has stored the text and consumed one character more |
| LineReader.BeforeIs | ublox-cellular-base/UbloxCellularBase.cpp:480-483 | where the loop stops is the first end or timeout, or the limit |
| LineReader.ReadOne | ublox-cellular-base/UbloxCellularBase.cpp:480-483 | one character is consumed and stored, and the account of what was read goes on |
| LineReader.ReadAtToChar | ublox-cellular-base/UbloxCellularBase.cpp:474-498 | for every stream, size and end: the line, its length, its terminator, what is consumed, and that nothing beyond `size` is written |
| LineReader.ReadChars | ublox-cellular-base/UbloxCellularBase.cpp:480-486 | at most `size` characters are consumed; those before the first end or timeout are stored |
| SocketProtocol.Find | ublox-at-cellular-interface/UbloxATCellularInterface.cpp:61-72 | the first slot with the handle, or none has it |
| SocketProtocol.UpdateView | ublox-at-cellular-interface/UbloxATCellularInterface.cpp:75-83 | changing one slot changes what is known of its old and its new handle and nothing else, and handles stay distinct |
| SocketProtocol.HandleFollowsView | ublox-at-cellular-interface/UbloxATCellularInterface.cpp:129-221 | running a URC handler changes what the host knows of every handle as the message says |
| SocketProtocol.UrcTouchesOneSlot | ublox-at-cellular-interface/UbloxATCellularInterface.cpp:129-221 | a URC changes at most the one slot that holds the handle it names |
| SocketProtocol.ModemStepKeepsInv | ublox-at-cellular-interface/UbloxATCellularInterface.cpp:136-142 | arrivals, closes, losses and the serving of commands keep the refinement, whatever is on its way |
| SocketProtocol.HostStepView | ublox-at-cellular-interface/UbloxATCellularInterface.cpp:685-693 | each message the host takes off the channel changes its view of every handle as the message says |
| SocketProtocol.HostStepKeepsInv | ublox-at-cellular-interface/UbloxATCellularInterface.cpp:129-221 | URC handlers and the accounting for replies keep the invariant |
| SocketProtocol.UncountedBytes | ublox-at-cellular-interface/UbloxATCellularInterface.cpp:693 | bytes never accounted for stay in the count until a message that does not depend on it |
| SocketProtocol.FirstDecides | ublox-at-cellular-interface/UbloxATCellularInterface.cpp:181-213 | what becomes of a handle still held is decided by the first message about it |
| SocketProtocol.MissKeepsInv | ublox-at-cellular-interface/UbloxATCellularInterface.cpp:450-459 | giving up on a harmless reply keeps the invariant; a missed AT+USOCR leaves a handle open that no slot knows |
| SocketProtocol.AttachKeepsInv | ublox-at-cellular-interface/UbloxATCellularInterface.cpp:877-887 | a change of callback keeps the invariant |
| SocketProtocol.BindKeepsInv | ublox-at-cellular-interface/UbloxATCellularInterface.cpp:512-516 | a saved slot with nothing pending, put back under the number the modem reissued, keeps the invariant |
| SocketProtocol.ModemSpeaksTruth | ublox-at-cellular-interface/UbloxATCellularInterface.cpp:129-221 | whatever a modem step adds to the channel is true of the handle it names, behind anything said before |
| SocketProtocol.StepKeepsTruth | ublox-at-cellular-interface/UbloxATCellularInterface.cpp:129-221 | no step, orderly or not, makes the channel untrue |
| SocketProtocol.SilenceAfterClose | ublox-at-cellular-interface/UbloxATCellularInterface.cpp:476-480 | after a close nothing is said of a handle but that it is lost, until it is created again |
| SocketProtocol.MissIsRightIff | ublox-at-cellular-interface/UbloxATCellularInterface.cpp:450-480 | in every state in step, skipping a reply keeps the invariant exactly when it creates, or no slot holds its handle, or a later message makes up for it |
| SocketProtocol.MissedHandleBreaks | ublox-at-cellular-interface/UbloxATCellularInterface.cpp:450-480 | a reply that is not harmless leaves its own handle inconsistent when it is skipped |
| SocketProtocol.MisreadIsRightIff | ublox-at-cellular-interface/UbloxATCellularInterface.cpp:692 | a late reply to AT+USORD, taken for the slot of another socket, keeps the invariant exactly when its own socket does not miss it and the other is free, or got nothing, or has a count that covers the bytes until it is corrected |
| SocketProtocol.MisreadSocket | ublox-at-cellular-interface/UbloxATCellularInterface.cpp:692-693 | the socket that takes the reply comes out consistent, with a sane count, exactly under that condition |
| SocketProtocol.ClaimedDecides | ublox-at-cellular-interface/UbloxATCellularInterface.cpp:693 | a host that counts too little runs dry exactly when the read replies to come, up to the next other message, claim more than it counts |
| SocketProtocol.MistakenElsewhere | ublox-at-cellular-interface/UbloxATCellularInterface.cpp:692-693 | every handle but that of the slot it was taken for is as if the reply had been skipped |
| SocketProtocol.MiscloseIsRightIff | ublox-at-cellular-interface/UbloxATCellularInterface.cpp:478-480 | a late OK to AT+USOCL, taken for the slot of another socket, keeps the invariant exactly when it may be skipped |
| SocketProtocol.LateReplyMisread | ublox-at-cellular-interface/UbloxATCellularInterface.cpp:692 | a run to a state in which the read of one socket takes the late reply of another and the table is wrong |
| SocketProtocol.NoUnderflow | ublox-at-cellular-interface/UbloxATCellularInterface.cpp:693 | for a socket still in use the reply is never longer than its pending count, so the unsigned subtraction is exact |
| SocketProtocol.SubtractionIsExactIff | ublox-at-cellular-interface/UbloxATCellularInterface.cpp:693 | for any reply and any slot that takes it, the unsigned subtraction is exact exactly when the slot holds the handle the reply names, or its count covers the bytes |
| SocketProtocol.LostDuringReadWraps | ublox-at-cellular-interface/UbloxATCellularInterface.cpp:201-213 | a run in which the connection is reported lost during a read ends with a count of 0xFFFFFFFF |
| SocketProtocol.StepKeepsInv | ublox-at-cellular-interface/UbloxATCellularInterface.cpp:129-221 | every step of host or modem keeps the invariant, binds, attached callbacks and late replies included, as long as replies skipped or taken late are harmless and binds orderly |
| SocketProtocol.StepIsRightIff | ublox-at-cellular-interface/UbloxATCellularInterface.cpp:129-221 | and no other step does: in every state in step, a step that is not a bind keeps the invariant exactly if it is orderly |
| SocketProtocol.InvOverRuns | ublox-at-cellular-interface/UbloxATCellularInterface.cpp:129-221 | every run of orderly steps keeps the invariant, in any interleaving of host and modem: replies may be skipped, or taken late by any socket, wherever that does no harm |
| SocketProtocol.StartKeepsInv | ublox-at-cellular-interface/UbloxATCellularInterface.cpp:923-962 | seven free slots and an idle modem satisfy it |
| SocketProtocol.TableAgreesWithModem | ublox-at-cellular-interface/UbloxATCellularInterface.cpp:61-99 | in every reachable state handles in use are distinct, and each slot's pending count with the undelivered messages applied is the modem's unread length of an open handle, unless an end for it is on its way; reachable by orderly steps |
| SocketProtocol.HeldUntilEnd | ublox-at-cellular-interface/UbloxATCellularInterface.cpp:181-213 | only a close, a loss or the reply to AT+USOCL takes a handle away from the host |
| SocketProtocol.PendingMeansUnread | ublox-at-cellular-interface/UbloxATCellularInterface.cpp:685-693 | pending bytes, no reply outstanding and no end on its way: the modem has bytes to give |
| SocketProtocol.StaysPositive | ublox-at-cellular-interface/UbloxATCellularInterface.cpp:136-142 | URCs never turn a positive pending count of a live handle into zero |
| SocketProtocol.ForgettingIsSafe | ublox-at-cellular-interface/UbloxATCellularInterface.cpp:181-198 | a host that has forgotten a handle ends with nothing, or with what it would have had anyway |
| SocketProtocol.LostCloseDuplicatesHandle | ublox-at-cellular-interface/UbloxATCellularInterface.cpp:476-480 | with a lost OK to AT+USOCL there is a run that ends with one handle in two slots |
| SocketProtocol.BindIsRightIff | ublox-at-cellular-interface/UbloxATCellularInterface.cpp:505-516 | for a handle that was closed, putting the saved slot back keeps the invariant exactly when the number was reissued with nothing pending or a count corrected later, or the handle is reported lost before anything else |
| SocketProtocol.CloseReplyTaken | ublox-at-cellular-interface/UbloxATCellularInterface.cpp:509-511 | once the reply that closes a handle is taken, the modem had closed it before all that is still on its way |
| SocketProtocol.ClosedBeforeStays | ublox-at-cellular-interface/UbloxATCellularInterface.cpp:129-221 | and so it stays, whatever the modem does and whichever URC handlers run |
| SocketProtocol.LegalWithout | ublox-at-cellular-interface/UbloxATCellularInterface.cpp:129-221 | a message that neither opens nor closes a handle makes no difference to what may be said of it |
| SocketProtocol.BoundHandle | ublox-at-cellular-interface/UbloxATCellularInterface.cpp:512-516 | the saved handle is consistent after a bind exactly under that condition |
| SocketProtocol.BindToAnotherNumber | ublox-at-cellular-interface/UbloxATCellularInterface.cpp:505-516 | a run after which binding breaks the table, because the modem reopened the socket under another number |
| AtSockets.UbloxATCellularInterface.constructor | ublox-at-cellular-interface/UbloxATCellularInterface.cpp:923-962 | all slots free, in step with an honest modem |
| AtSockets.UbloxATCellularInterface.FindSocket | ublox-at-cellular-interface/UbloxATCellularInterface.cpp:61-72 | the loop finds the first slot with the handle, or none |
| AtSockets.UbloxATCellularInterface.HandleUrc | ublox-at-cellular-interface/UbloxATCellularInterface.cpp:129-221 | the whole table after a handler, for all four URCs, slot by slot: the first slot with the handle takes the total and keeps its callback, or is cleared; the invariant is kept, and a positive count stays positive |
| AtSockets.UbloxATCellularInterface.RecvReply | ublox-at-cellular-interface/UbloxATCellularInterface.cpp:691-692 | any number of URC handlers run before the reply, the reply is the one expected, slots are at most freed, and on a reliable link it comes |
| AtSockets.UbloxATCellularInterface.HandleAwaiting | ublox-at-cellular-interface/UbloxATCellularInterface.cpp:691-692 | a URC handled while a reply is awaited changes the host's view as it says and leaves the reply to come |
| AtSockets.UbloxATCellularInterface.Deliver | ublox-at-cellular-interface/UbloxATCellularInterface.cpp:722 | the message at the front is handled if it is a URC and dropped if nobody waits for it |
| AtSockets.UbloxATCellularInterface.Pump | ublox-at-cellular-interface/UbloxATCellularInterface.cpp:722 | waiting for URCs takes time, keeps the invariant, takes no bytes from any handle, and on a prompt link runs the handler of everything that was on its way |
| AtSockets.UbloxATCellularInterface.HandleEvent | ublox-at-cellular-interface/UbloxATCellularInterface.cpp:35-58 | a turn of the event thread sets the timeout to 10 and then back, restores the lock, keeps the invariant and takes no bytes; on a prompt link everything that was on its way is handled |
| AtSockets.UbloxATCellularInterface.WaitForLock | ublox-at-cellular-interface/UbloxATCellularInterface.cpp:46-55 | the event thread may run before a thread gets the lock, and takes no bytes, and pending bytes still show |
| AtSockets.UbloxATCellularInterface.NetworkStep | ublox-at-cellular-interface/UbloxATCellularInterface.cpp:46-55 | what the network does meanwhile keeps the invariant, adds URCs and takes no bytes |
| AtSockets.UbloxATCellularInterface.ReadExchange | ublox-at-cellular-interface/UbloxATCellularInterface.cpp:691-695 | one command for the slot's handle; the reply is the front of its unread bytes, at most what was asked for, not empty if bytes were pending and the socket survives; the invariant is kept, also on failure; a reply that was served and lost is accounted for in `taken` |
| AtSockets.UbloxATCellularInterface.ReadPending | ublox-at-cellular-interface/UbloxATCellularInterface.cpp:685-720 | the bytes land in the buffer at the right place and nowhere else; failure on a reliable link means the handle is gone; the invariant is kept, also on failure; the command asks for all there is room for, up to 1024 bytes; a modem that gives all it has gives at least what was unread at the start of the turn |
| AtSockets.UbloxATCellularInterface.LockedTurn | ublox-at-cellular-interface/UbloxATCellularInterface.cpp:677-735 | a turn reads, waits or expires, the last only with nothing pending; timeout and lock restored; the invariant is kept, also on failure; it reads exactly if bytes are pending; the timeout is 1000 meanwhile |
| AtSockets.UbloxATCellularInterface.RecvTurn | ublox-at-cellular-interface/UbloxATCellularInterface.cpp:676-736 | with the event thread running before the lock is had, a turn still reads the next unread bytes, waits or expires, and restores timeout and lock; with bytes pending it waits or expires only if the socket is gone |
| AtSockets.FirstTurn | ublox-at-cellular-interface/UbloxATCellularInterface.cpp:680-708 | the first turn that gets something asked for all there was room for, and got at least what was unread at the call from a modem that gives all it has |
| AtSockets.UbloxATCellularInterface.SocketRecv | ublox-at-cellular-interface/UbloxATCellularInterface.cpp:654-750 | terminates for every modem behaviour; at most `size` bytes, and they are the next unread ones in order; a short count or WOULD_BLOCK only once the clock of the link has advanced by 1000 ms, with nothing pending; WOULD_BLOCK consumed nothing, and comes only if nothing was pending at the call, and on a prompt link only if nothing was unread in the modem, unless the socket is gone; the first command asks for `size` bytes or 1024, and a modem that gives all it has delivers at least that or what was unread; an error on a reliable link only if the handle is gone; after an error the modem gave up exactly what is in the buffer and one more reply at most, which is lost; timeout and lock restored; the invariant is kept, also on failure |
| AtSockets.UbloxATCellularInterface.SocketRecvFrom | ublox-at-cellular-interface/UbloxATCellularInterface.cpp:753-873 | terminates for every modem behaviour and delivers the next unread bytes in order, at most `size` and 1024; datagrams are never joined: at most one read command per call, for any modem, unless it sends more than the 1024 bytes that are the most ever asked for; it asks for `size` bytes or 1024, and a modem that gives all it has delivers at least that or what was unread; WOULD_BLOCK only once the clock of the link has advanced by 1000 ms, with nothing pending and nothing sent, only if nothing was pending at the call, and on a prompt link only if nothing was unread, unless the socket is gone; after an error the modem gave up exactly what is in the buffer and one more reply at most; timeout and lock restored; the invariant is kept, also on failure |
| AtSockets.UbloxATCellularInterface.SocketAttach | ublox-at-cellular-interface/UbloxATCellularInterface.cpp:877-887 | the callback of the one slot changes and the invariant is kept |
| AtSockets.UbloxATCellularInterface.CreateExchange | ublox-at-cellular-interface/UbloxATCellularInterface.cpp:439-452 | the command sent, or nothing; slots at most freed meanwhile; no handle opens but the one created; the invariant is kept; on a reliable link a modem that grants sockets gives one |
| AtSockets.UbloxATCellularInterface.ServeClose | ublox-at-cellular-interface/UbloxATCellularInterface.cpp:476-480 | a modem closes every handle that is open, and refuses only one that is not |
| AtSockets.UbloxATCellularInterface.CloseExchange | ublox-at-cellular-interface/UbloxATCellularInterface.cpp:476-480 | on success the slot is free, its handle closed on the modem and known to no slot; the invariant is kept, also on failure; on a reliable link it fails only for a handle that is not open |
| AtSockets.UbloxATCellularInterface.SocketOpen | ublox-at-cellular-interface/UbloxATCellularInterface.cpp:424-463 | the exact cases of every error: NO_MEMORY for a full table, UNSUPPORTED for another protocol, DEVICE_ERROR with nothing sent, NO_SOCKET with the command sent; OK gives the first free slot a fresh handle, nothing pending and no callback; the protocol number sent; the invariant is kept, also on failure; never a DEVICE_ERROR on a reliable link, and never NO_SOCKET there from a modem that grants sockets; the modem created it with the protocol number asked for |
| AtSockets.UbloxATCellularInterface.SocketClose | ublox-at-cellular-interface/UbloxATCellularInterface.cpp:466-484 | OK frees the slot, and the handle is closed on the modem; the invariant is kept, also on failure; on a reliable link an error means that the handle is not open |
| AtSockets.UbloxATCellularInterface.Reopen | ublox-at-cellular-interface/UbloxATCellularInterface.cpp:512-516 | the saved slot comes back, and the table is right exactly when `RightToBind` holds of the number reissued and the messages on their way; no handle opens but that number; a modem that grants sockets, on a reliable link, always reopens |
| AtSockets.UbloxATCellularInterface.CloseAndReopen | ublox-at-cellular-interface/UbloxATCellularInterface.cpp:509-520 | closing and creating anew, with the slot as it was put back: the same exact condition, and what is left when either fails |
| AtSockets.UbloxATCellularInterface.SocketBind | ublox-at-cellular-interface/UbloxATCellularInterface.cpp:487-523 | the three commands in order with the port; OK leaves the table right exactly when the number is reissued with nothing pending or a count corrected later, or the old number is reported lost before anything else, whatever is on its way; the number is the only handle that opened; a failed reopening leaves the slot free; on a reliable link with a modem that grants sockets an error means that the handle is gone; the protocol number is the one the modem created the socket with |
| AtExchange.ReadIsFruitful | ublox-at-cellular-interface/UbloxATCellularInterface.cpp:685-711 | a read for a slot that showed pending bytes and survives found bytes in the modem, so the branch for a failed read is not taken |
| AtExchange.ReadSettles | ublox-at-cellular-interface/UbloxATCellularInterface.cpp:691-693 | once the reply is accounted for host and modem are in step, slots at most freed |
| AtExchange.ReadAccounted | ublox-at-cellular-interface/UbloxATCellularInterface.cpp:691-693 | the states of a successful read, with arrivals and URCs in between, end in step again, the reply accounted for |
| AtExchange.CloseAccounted | ublox-at-cellular-interface/UbloxATCellularInterface.cpp:476-480 | the states of a successful close end in step again, the handle gone on both sides |
| AtExchange.EnvironmentStep | ublox-at-cellular-interface/UbloxATCellularInterface.cpp:46-55 | what the network does on its own adds URCs to the channel and takes nothing from the host |
| AtExchange.DriftsOn | ublox-at-cellular-interface/UbloxATCellularInterface.cpp:46-55 | any number of such steps add up: handles only go, unread bytes only come, URCs only queue up |
| AtExchange.ReadTook | ublox-at-cellular-interface/UbloxATCellularInterface.cpp:691 | a read that was served takes the front of the unread bytes, whether or not the reply gets through |
| AtExchange.WaitingPop | ublox-at-cellular-interface/UbloxATCellularInterface.cpp:691-692 | what is taken off the channel before the reply is a URC, and behind the reply come URCs alone |
| AtExchange.TookTwice | ublox-at-cellular-interface/UbloxATCellularInterface.cpp:706-708 | two receipts in a row are one receipt of both, in order |
| AtExchange.TookMore | ublox-at-cellular-interface/UbloxATCellularInterface.cpp:706-708 | what a slot has received and what one more turn took are, in order, what the call took, also when the turn failed |
| AtExchange.UnreadGrows | ublox-at-cellular-interface/UbloxATCellularInterface.cpp:136-142 | as long as nothing is read from a handle its unread bytes can only become more, in order |
| AtExchange.UrcKeepsPending | ublox-at-cellular-interface/UbloxATCellularInterface.cpp:129-221 | a URC leaves positive counts positive, or frees the slot |
| AtExchange.AllDelivered | ublox-at-cellular-interface/UbloxATCellularInterface.cpp:685-731 | with nothing on its way, nothing pending and nothing read since the call began, there was nothing unread |
| AtExchange.ReceiveConservation | ublox-at-cellular-interface/UbloxATCellularInterface.cpp:654-750 | over every run of receive calls, what was unread plus what has arrived since is what was delivered followed by what is unread, in order |
| AtExchange.TakenInOrder | ublox-at-cellular-interface/UbloxATCellularInterface.cpp:654-750 | the modem's record of bytes read is extended by each call's bytes in turn |
| AtSend.FragmentsAreTheBuffer | ublox-at-cellular-interface/UbloxATCellularInterface.cpp:564-584 | the blocks joined are the buffer; there are size over 1024 of them, rounded up; all but the last are full |
| AtSend.FragmentAt | ublox-at-cellular-interface/UbloxATCellularInterface.cpp:564-584 | fragment i is the bytes from 1024 times i on, up to 1024 of them |
| AtSend.BlocksCarry | ublox-at-cellular-interface/UbloxATCellularInterface.cpp:570-573 | the blocks go to the socket and destination given, each with its own 1024 bytes, and together carry a prefix of the data, all of it when none is missing |
| AtSend.BlocksTaken | ublox-at-cellular-interface/UbloxATCellularInterface.cpp:570-573 | the same of the blocks the modem took after those it had |
| AtSend.NextFragment | ublox-at-cellular-interface/UbloxATCellularInterface.cpp:564-584 | the block the loop cuts next is the next fragment |
| Bytes.JoinedAppend | ublox-at-cellular-interface/UbloxATCellularInterface.cpp:564-584 | joining pieces one by one, in order |
| Bytes.Sub32 | ublox-at-cellular-interface/UbloxATCellularInterface.cpp:693 | a 32-bit counter minus a number is exact exactly if it does not wrap |
| AtSend.UbloxATCellularInterface.SendBlock | ublox-at-cellular-interface/UbloxATCellularInterface.cpp:570-578 | one block taken whole, or none; one taken may still be reported as failed; a reliable link takes and confirms it |
| AtSend.UbloxATCellularInterface.SendNext | ublox-at-cellular-interface/UbloxATCellularInterface.cpp:564-584 | one turn: the next fragment is taken, or none is |
| AtSend.UbloxATCellularInterface.SendAll | ublox-at-cellular-interface/UbloxATCellularInterface.cpp:564-587 | the loop: the first fragments are taken in order, all of them if it succeeds, as it always does on a reliable link |
| AtSend.UbloxATCellularInterface.SocketSend | ublox-at-cellular-interface/UbloxATCellularInterface.cpp:549-651 | both send calls: the size, always so on a reliable link, or an error; every block the modem took is for this socket and destination and carries the 1024 bytes of the data at its place, or what is left there; joined they are the data, and a prefix of it after an error; the lock is released |
| LockDiscipline.StepKeepsOrder | ublox-cellular-base/UbloxCellularBase.cpp:464-470 | one instruction of one thread keeps every thread on course to restore the timeout |
| LockDiscipline.TimeoutRestoredWhenFree | ublox-cellular-base/UbloxCellularBase.cpp:464-470 | whatever the interleaving, a free lock has depth zero and the timeout has its constructor's value |
| LockDiscipline.RestoresConcat | ublox-at-cellular-interface/UbloxATCellularInterface.cpp:348-392 | disciplined calls one after the other are disciplined, even from inside a critical section |
| LockDiscipline.LockedThen | ublox-cellular-base/UbloxCellularBase.cpp:634-682 | calls that nest the lock to any depth give back what they took |
| LockDiscipline.AttemptsThen | ublox-at-cellular-interface/UbloxATCellularInterface.cpp:250-343 | any number of profile attempts with any number of activations restores the timeout each saved |
| LockDiscipline.ReceiveDisciplined | ublox-at-cellular-interface/UbloxATCellularInterface.cpp:676-735 | each turn of a receive loop restores the timeout in its own critical section |
| LockDiscipline.PowerUpDisciplined | ublox-cellular-base/UbloxCellularBase.cpp:502-556 | power-up restores the timeout in its critical section, however often it retries |
| LockDiscipline.RegisterDisciplined | ublox-cellular-base/UbloxCellularBase.cpp:730-802 | registration restores it on every path, searching or not, registered in the end or not |
| LockDiscipline.ConnectDisciplined | ublox-at-cellular-interface/UbloxATCellularInterface.cpp:348-392 | bringing up the stack gives the lock back with the timeout restored, whatever profiles it tries |
| LockDiscipline.CallsAreDisciplined | ublox-at-cellular-interface/UbloxATCellularInterface.cpp:1007-1020 | every call saves, sets and restores the timeout within one critical section |
| LockDiscipline.ProgramsAreDisciplined | ublox-at-cellular-interface/UbloxATCellularInterface.cpp:46-55 | any sequence of calls by a thread is disciplined |
| LockDiscipline.DriverKeepsTimeout | ublox-at-cellular-interface/UbloxATCellularInterface.cpp:46-55 | any number of threads making any calls in any interleaving: whenever the lock is free its depth is zero and the timeout is the constructor's |
| LockDiscipline.SavingOutsideTheLockLeaksTimeout | ublox-at-cellular-interface-n2xx/UbloxATCellularInterfaceN2xx.cpp:382-433 | one N2xx receive call and one turn of the event thread can leave the lock free with a timeout of 10 |
| LockDiscipline.N2xxLoopRestoresIff | ublox-at-cellular-interface-n2xx/UbloxATCellularInterfaceN2xx.cpp:382-433 | alone, the N2xx receive loop restores the timeout exactly if its copy was right, or it takes no turn |
| LockDiscipline.LetsGo | ublox-at-cellular-interface/UbloxATCellularInterface.cpp:46-55 | a thread on course that holds the lock can run until it lets go of it |
| LockDiscipline.RightCopyRestores | ublox-at-cellular-interface-n2xx/UbloxATCellularInterfaceN2xx.cpp:382-433 | with a right copy every interleaving restores the timeout, whatever other threads do |
| LockDiscipline.WrongCopyLeaks | ublox-at-cellular-interface-n2xx/UbloxATCellularInterfaceN2xx.cpp:382-433 | with a wrong copy some interleaving leaves it behind |
| LockDiscipline.N2xxReceiveIsRightIff | ublox-at-cellular-interface-n2xx/UbloxATCellularInterfaceN2xx.cpp:382-433 | every run from the copy on restores the timeout exactly when the timeout copied was the constructor's, as it is with the lock free |
| SimCard.SafeOverRuns | ublox-cellular-base/UbloxCellularBase.cpp:645-672 | PIN entries never exceed init calls made while uninitialised, and tries of put-off changes never exceed requests |
| SimCard.PinEntriesArePaidFor | ublox-cellular-base/UbloxCellularBase.cpp:645-672 | between any two points of a run the PIN is entered at most once per init that starts afresh |
| SimCard.ChangeStep | ublox-at-cellular-interface/UbloxATCellularInterface.cpp:1065-1076 | one call tries a put-off change and forgets it exactly if it is a connect whose init succeeds |
| SimCard.PutOffChangeTriedOnce | ublox-at-cellular-interface/UbloxATCellularInterface.cpp:1065-1076 | a put-off change of either kind is tried exactly once, in the first connect whose init succeeds, and is then forgotten |
| SimCard.FirstIsFirst | ublox-cellular-base/UbloxCellularBase.cpp:645-675 | the first answer among ten rounds is the one that counts, and there is only one |
| SimCard.UbloxModem.InitialiseSimCard | ublox-cellular-base/UbloxCellularBase.cpp:634-682 | for every script of answers: true exactly if the first answer in ten rounds is READY, or SIM PIN with the PIN sent and taken; the PIN goes out once, and only after the SIM asked; the check counts as on or off as the answer says, and as before otherwise |
| SimCard.UbloxModem.Init | ublox-cellular-base/UbloxCellularBase.cpp:689-727 | an initialised modem is left alone; otherwise ready exactly if it powers up, the SIM comes up and the set-up works; one PIN entry at most; a PIN passed in is used exactly if there is power |
| SimCard.UbloxModem.SimPinCheckEnable | ublox-cellular-base/UbloxCellularBase.cpp:855-882 | true only with a PIN known and the check as asked for; false leaves it as it was; a failure is counted; true exactly if a PIN is known and the check is as asked already or the modem takes the change |
| SimCard.UbloxModem.ChangeSimPin | ublox-cellular-base/UbloxCellularBase.cpp:885-902 | true only if both PINs are known, and then the new one is; false keeps the old one; a failure is counted; true exactly if both are known and the modem takes the change |
| SimCard.UbloxModem.PerformCheckChange | ublox-at-cellular-interface/UbloxATCellularInterface.cpp:1065-1070 | a put-off change of the check is tried once and forgotten; a try that fails is counted, and success means the check is as asked for; it works exactly if the change does |
| SimCard.UbloxModem.PerformPinChange | ublox-at-cellular-interface/UbloxATCellularInterface.cpp:1071-1076 | a put-off change of the PIN is tried once and forgotten; a try that fails is counted, and success means the new PIN is in force; it works exactly if the change does |
| SimCard.UbloxModem.Register | ublox-at-cellular-interface/UbloxATCellularInterface.cpp:1078-1084 | registered exactly if one of three attempts succeeds, and no attempt is made after that |
| SimCard.UbloxModem.Connect | ublox-at-cellular-interface/UbloxATCellularInterface.cpp:1056-1093 | registration is tried exactly if init succeeds and no put-off change fails, even one whose value was in force already; AUTH_FAILURE exactly if one failed, DEVICE_ERROR exactly if init did; put-off changes are kept if init fails; OK exactly if init succeeds, no change fails, one of three attempts registers and the stack comes up; init succeeds exactly if the modem was initialised or comes up |
| SimCard.UbloxModem.SetCheckNow | ublox-at-cellular-interface/UbloxATCellularInterface.cpp:1118-1125 | init and the change at once, with OK only if the check is as asked for; AUTH_FAILURE exactly if the change failed; always OK if init succeeds, a PIN is known and the modem takes the change |
| SimCard.UbloxModem.SetPinNow | ublox-at-cellular-interface/UbloxATCellularInterface.cpp:1146-1153 | init and the change at once, with OK only if the new PIN is in force; AUTH_FAILURE exactly if the change failed; OK exactly if init succeeds, both PINs are known and the modem takes the change |
| SimCard.UbloxModem.SetSimPinCheck | ublox-at-cellular-interface/UbloxATCellularInterface.cpp:1108-1133 | put off, or done at once, with OK only if the check is as asked for; a PIN passed in becomes the PIN known |
| SimCard.UbloxModem.SetNewSimPin | ublox-at-cellular-interface/UbloxATCellularInterface.cpp:1136-1161 | put off, or done at once, with OK only if the new PIN is in force; an old PIN passed in becomes the PIN known |
| SimCard.UbloxModem.Deinit | ublox-cellular-base/UbloxCellularBase.cpp:843-847 | uninitialised, and nothing else changes |
| SimCard.UbloxModem.SetPin | ublox-cellular-base/UbloxCellularBase.cpp:850-852 | the PIN, and nothing else changes |

## Left out

- I2C details: the repeated-start flag, NULL result pointers, real delays other than as waits for the CONFIGUPDATE flag, and corrupted transfers (so a checksum mismatch on reading never happens in a run; `BlockIsSound` and `CorruptionShows` say that it would be noticed).
- Offsets and lengths below zero, which the guards do not reject and which index out of the block buffer or copy a wrapped count, and overflow of offset plus length near 2^31.
- `isBatteryDetected`, `isGaugeEnabled`, `advancedGet` and `advancedSendControlWord`: the first ignores the result of hibernating again and the last two do not hibernate again, so they are outside the run properties.
- A hard reset, and a second init of a driver that is ready, in the seal property: the ready flag is never cleared and a reset brings back whatever seal bit the power-on memory has.
- Parsing of AT text (`sscanf`, the AT parser): URCs and replies arrive as messages; the character level is covered by the line reader alone.
- User callbacks run from URC handlers, and API calls of other threads during a receive call; the event thread is modelled there, and all threads in the lock model.
- LockDiscipline.CallsAreDisciplined: the calls are traces of their lock and timeout instructions, written from the code; the classes prove the same restoration for the socket calls on their own bodies.
- A slot freed by a remote close and opened again while the application still uses its old pointer: slots are named by index, and a receive call is judged by the handle it started with.
- After a call that failed on an unreliable link the table is still right (`Inv`), but a reply may be outstanding, and the contracts of later calls ask that none is.
- A socket freed by a URC between two blocks of one send: the handle of a send call is the one it started with.
- IP addresses and ports of datagrams, `socket_connect`, `socket_listen`, `socket_accept` and socket options: plain forwarding.
- The N2xx receive path other than its lock order: it subtracts what it asked for and not what it got, and one exit keeps the lock.
- Profile activation, credentials and registration status beyond their effect on lock and timeout, and the PPP interface, which depends on a stack that is not part of this model.
- The demo application, LEDs, certificates, trace output and build products.
