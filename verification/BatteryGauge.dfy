/** The BQ27441 driver: configuration reads and writes, sealing, gauging and hibernation. */
module BatteryGauge {
  import opened Bytes
  import opened GaugeChip

  const CONFIG_UPDATE_LOOPS := 200
  const FIRMWARE := 0x0109

  // ---------------------------------------------------------------- specification

  /** The driver's own test on a range; for a length of one or more it means one block. */
  predicate Fits(offset: nat, length: nat)
  {
    length <= 32 && offset / 32 == CDiv(offset + length - 1, 32)
  }

  predicate HibernateWord(w: word)
  {
    w == SET_HIBERNATE || w == CLEAR_HIBERNATE
  }

  /** CONFIGUPDATE follows a request before the polling loops give up. */
  predicate Prompt(c: Chip)
  {
    c.latency < CONFIG_UPDATE_LOOPS
  }

  /** With this seal code and no transfer lost, the chip lets the driver in. */
  predicate Opens(c: Chip, code: word)
  {
    c.sealed ==> code == c.key && !IsSubCommand(code)
  }

  /** So the chip can be written to. */
  predicate Writable(c: Chip, code: word)
  {
    Prompt(c) && Opens(c, code)
  }

  /** After `count` waits the flag either is as wanted or will be when its latency has passed. */
  predicate Settling(c: Chip, wanted: bool, count: nat)
  {
    && c.cfgWanted == wanted && count <= c.latency
    && (c.cfgUpdate != wanted ==> 1 <= c.settle == c.latency - count)
  }

  /** It opens now, and again after a reset that seals it. */
  predicate AlwaysOpens(c: Chip, code: word)
    requires Shaped(c.mem)
  {
    Opens(c, code) && (Reseal(c.mem) ==> Opens(c.(sealed := true), code))
  }

  /** A chip of the right make that can be set up with this seal code. */
  predicate Welcomes(c: Chip, code: word)
    requires Shaped(c.mem)
  {
    c.firmware == FIRMWARE && Prompt(c) && AlwaysOpens(c, code)
  }

  /** A chip that this code unseals, or at least does nothing to, and that can be written to. */
  predicate Unsealable(c: Chip, code: word)
  {
    Writable(c, code) && !IsSubCommand(code)
  }

  /** The test accepts every range that lies in one block, save an empty one at the start of a later block. */
  lemma FitsIff(offset: nat, length: nat)
    ensures Fits(offset, length) <==>
      offset % 32 + length <= 32 && (length == 0 ==> offset == 0 || offset % 32 != 0)
  {
    GuardMeansOneBlock(offset, length);
  }

  lemma FitsInClass(offset: nat, length: nat)
    requires Fits(offset, length)
    ensures offset % 32 + length <= 32
    ensures offset % CLASS_SIZE + length <= CLASS_SIZE
  {
    GuardMeansOneBlock(offset, length);
    BlockAddress(offset);
  }

  /** The plain slice an extended read stands for: the block number wraps every 8192 bytes. */
  function ReadSlice(m: Memory, cls: byte, offset: nat, length: nat): (r: seq<byte>)
    requires Shaped(m) && Fits(offset, length)
    ensures |r| == length
  {
    FitsInClass(offset, length);
    MemRead(m, cls, offset % CLASS_SIZE, length)
  }

  function WriteSlice(m: Memory, cls: byte, offset: nat, data: seq<byte>): (r: Memory)
    requires Shaped(m) && Fits(offset, |data|)
    ensures Shaped(r)
  {
    FitsInClass(offset, |data|);
    MemWrite(m, cls, offset % CLASS_SIZE, data)
  }

  /** A chip told to seal itself; the reseal bit is set unless it was sealed before. */
  function SelfSealed(c: Chip): (r: Chip)
    requires Shaped(c.mem)
    ensures Shaped(r.mem) && r.sealed
  {
    if c.sealed then c else c.(sealed := true, mem := SetReseal(c.mem))
  }

  ghost predicate UnsealSpec(c: Chip, c': Chip, code: word, ok: bool)
    requires Shaped(c.mem) && Shaped(c.rom)
  {
    && Shaped(c'.mem) && Shaped(c'.rom)
    && (c' == c || c' == Exec(c, code) || c' == Exec(Exec(c, code), code) || c' == c.(sealed := false))
    && (ok ==> !c'.sealed)
  }

  /** An extended read.  Only a sealed chip is changed: it is unsealed on the way in and
      sealed again, which also sets its reseal bit, on the way out. */
  ghost predicate ReadSpec(c: Chip, c': Chip, code: word, cls: byte, offset: nat, length: nat, ok: bool,
                           data: seq<byte>)
    requires Shaped(c.mem)
  {
    && c' == c.(mem := c'.mem, sealed := c'.sealed, hibernate := c'.hibernate)
    && (!c.sealed || !Fits(offset, length) ==> c' == c)
    && (c'.mem == c.mem || c'.mem == SetReseal(c.mem))
    && (!HibernateWord(code) ==> c'.hibernate == c.hibernate)
    && (ok ==>
          && Fits(offset, length)
          && c'.hibernate == c.hibernate
          && data == ReadSlice(c.mem, cls, offset, length)
          && c'.sealed == c.sealed
          && c'.mem == if c.sealed then SetReseal(c.mem) else c.mem)
  }

  /** An extended write: whole or not at all, whatever transfer is lost. */
  ghost predicate WriteSpec(c: Chip, c': Chip, code: word, cls: byte, offset: nat, data: seq<byte>, ok: bool)
    requires Shaped(c.mem)
  {
    && Shaped(c'.mem) && c'.rom == c.rom && c'.key == c.key && c'.latency == c.latency && c'.firmware == c.firmware
    && (!HibernateWord(code) ==> c'.hibernate == c.hibernate)
    && (if Fits(offset, |data|) then
          var written := WriteSlice(c.mem, cls, offset, data);
          && (c'.mem in {c.mem, written} || (c.sealed && !ok && c'.mem in {SetReseal(c.mem), SetReseal(written)}))
          && (ok ==> c'.mem == written && c'.sealed == Reseal(written) && !c'.cfgUpdate && c'.hibernate == c.hibernate)
        else
          c' == c && !ok)
  }

  /** What the caller can see of driver and chip between two public calls. */
  datatype World = World(chip: Chip, ready: bool, gaugeOn: bool, sealCode: word)

  datatype Call =
    | Init(code: word)
    | EnableGauge(slow: bool)
    | DisableGauge
    | Reading
    | EnableDetect
    | DisableDetect
    | GetConfig(cls: byte, offset: nat, data: seq<byte>)
    | SetConfig(cls: byte, offset: nat, data: seq<byte>)
    | Seal
    | Unseal(code: word)
    | HardReset

  /** The result of `setHibernate` when the gauge is off; nothing when it is on. */
  ghost predicate Hibernated(c: Chip, c': Chip, gaugeOn: bool, done: bool)
  {
    && (gaugeOn ==> c' == c && done)
    && (!gaugeOn ==> (c' == c || c' == c.(hibernate := true)))
    && (!gaugeOn && done ==> c' == c.(hibernate := true))
  }

  /** An extended read, then hibernation if the gauge is off; true when both worked. */
  ghost predicate GetConfigEffect(c: Chip, c': Chip, code: word, gaugeOn: bool, cls: byte, offset: nat, length: nat,
                                  ok: bool, data: seq<byte>)
    requires Shaped(c.mem)
  {
    exists mid: Chip, done: bool, slept: bool ::
      && ReadSpec(c, mid, code, cls, offset, length, done, data)
      && Hibernated(mid, c', gaugeOn, slept) && ok == (done && slept)
  }

  ghost predicate SetConfigEffect(c: Chip, c': Chip, code: word, gaugeOn: bool, cls: byte, offset: nat,
                                  data: seq<byte>, ok: bool)
    requires Shaped(c.mem)
  {
    exists mid: Chip, done: bool, slept: bool ::
      && WriteSpec(c, mid, code, cls, offset, data, done)
      && Hibernated(mid, c', gaugeOn, slept) && ok == (done && slept)
  }

  function Be16(v: nat): (r: seq<byte>)
    requires v < 0x1_0000
    ensures |r| == 2
  {
    [v / 256, v % 256]
  }

  /** The memory a successful init leaves: Sleep Current and Hibernate V at their maxima. */
  function InitMemory(m: Memory): (r: Memory)
    requires Shaped(m)
    ensures Shaped(r)
  {
    MemWrite(MemWrite(m, 82, 31, Be16(1000)), 68, 9, Be16(5000))
  }

  /** Bit 5 set or cleared, every other bit kept. */
  function WithBit5(b: byte, on: bool): (r: byte)
    ensures BitSet(r, 32) == on && r % 32 == b % 32 && r / 64 == b / 64
  {
    b / 64 * 64 + (if on then 32 else 0) + b % 32
  }

  function ClearReseal(m: Memory): (r: Memory)
    requires Shaped(m)
    ensures Shaped(r) && !Reseal(r)
  {
    if Reseal(m) then MemWrite(m, 82, 2, [m[82][2] - 128]) else m
  }

  function OpConfig(m: Memory): (s: seq<byte>)
    requires Shaped(m)
    ensures |s| == 2
  {
    MemRead(m, 64, 0, 2)
  }

  function WithOpConfig(m: Memory, hi: byte, lo: byte): (r: Memory)
    requires Shaped(m)
    ensures Shaped(r) && OpConfig(r) == [hi, lo]
  {
    MemWrite(m, 64, 0, [hi, lo])
  }

  /** OpConfig was read through `c`; if it already had the wanted value nothing more happened,
      otherwise it was written back with one bit changed. */
  ghost predicate Reconfigured(c: Chip, c': Chip, hi: byte, lo: byte)
    requires Shaped(c.mem)
  {
    && Shaped(c'.mem)
    && OpConfig(c'.mem) == [hi, lo]
    && if OpConfig(c.mem) == [hi, lo]
       then c'.mem == (if c.sealed then SetReseal(c.mem) else c.mem) && c'.sealed == c.sealed
       else c'.mem == WithOpConfig(if c.sealed then SetReseal(c.mem) else c.mem, hi, lo) && c'.sealed == Reseal(c'.mem)
  }

  /** A slice read is bytes at their places. */
  lemma ReadSliceIs(m: Memory, cls: byte, offset: nat, length: nat, i: nat)
    requires Shaped(m) && Fits(offset, length) && i < length
    ensures offset % 8192 + i < 8192 && ReadSlice(m, cls, offset, length)[i] == m[cls][offset % 8192 + i]
  {
    FitsInClass(offset, length);
  }

  /** A slice written puts each byte at its place and leaves every other byte of the memory alone. */
  lemma WriteSliceIs(m: Memory, cls: byte, offset: nat, data: seq<byte>, c: byte, k: nat)
    requires Shaped(m) && Fits(offset, |data|) && k < 8192
    ensures var at := k - offset % 8192;
      WriteSlice(m, cls, offset, data)[c][k] == if c == cls && 0 <= at < |data| then data[at] else m[c][k]
  {
    FitsInClass(offset, |data|);
  }

  /** Where the settings lie that the driver reads and changes on its own. */
  lemma SettingsAt(m: Memory, hi: byte, lo: byte)
    requires Shaped(m)
    ensures OpConfig(m) == [m[64][0], m[64][1]]
    ensures var c: seq<byte> := m[64][0 := hi][1 := lo]; WithOpConfig(m, hi, lo) == m[64 := c]
    ensures var a: seq<byte>, b: seq<byte> := m[82][31 := 0x03][32 := 0xE8], m[68][9 := 0x13][10 := 0x88];
      InitMemory(m) == m[82 := a][68 := b]
    ensures var s: seq<byte> := m[82][2 := 128 + m[82][2] % 128]; SetReseal(m) == m[82 := s]
    ensures var u: seq<byte> := m[82][2 := m[82][2] % 128]; ClearReseal(m) == m[82 := u]
  {
    assert Splice(m[64], 0, [hi, lo]) == m[64][0 := hi][1 := lo];
    assert Splice(m[82], 31, [0x03, 0xE8]) == m[82][31 := 0x03][32 := 0xE8];
    assert Splice(m[68], 9, [0x13, 0x88]) == m[68][9 := 0x13][10 := 0x88];
    assert m[82][2 := m[82][2]] == m[82] && m[82 := m[82]] == m;
    if Reseal(m) {
      assert Splice(m[82], 2, [m[82][2] - 128]) == m[82][2 := m[82][2] % 128];
    }
  }

  ghost predicate Frame(w: World, w': World)
  {
    w.ready && w'.ready && w'.sealCode == w.sealCode
  }

  /** One public call that returned true. */
  ghost predicate Succeeds(call: Call, w: World, w': World)
    requires Shaped(w.chip.mem)
  {
    && Shaped(w'.chip.mem)
    && match call
       case Init(code) =>
         && w'.ready && w'.sealCode == code && w'.gaugeOn == w.gaugeOn
         && (!w.ready ==> w'.chip.hibernate && w'.chip.mem == InitMemory(w.chip.mem))
         && (!w.ready ==> w'.chip.sealed == Reseal(w'.chip.mem))
       case EnableGauge(slow) =>
         && Frame(w, w') && w'.gaugeOn
         && !w'.chip.hibernate
         && Reconfigured(w.chip, w'.chip, OpConfig(w.chip.mem)[0], WithBit5(OpConfig(w.chip.mem)[1], slow))
       case DisableGauge =>
         Frame(w, w') && !w'.gaugeOn && w'.chip == w.chip.(hibernate := true)
       case Reading =>
         && Frame(w, w') && w'.gaugeOn == w.gaugeOn
         && w'.chip == w.chip.(hibernate := if w.gaugeOn then w.chip.hibernate else true)
       case EnableDetect =>
         && Frame(w, w') && w'.gaugeOn == w.gaugeOn
         && (w.chip.hibernate ==> w'.chip.hibernate)
         && Reconfigured(w.chip, w'.chip, WithBit5(OpConfig(w.chip.mem)[0], true), OpConfig(w.chip.mem)[1])
       case DisableDetect =>
         && Frame(w, w') && w'.gaugeOn == w.gaugeOn
         && (w.chip.hibernate ==> w'.chip.hibernate)
         && Reconfigured(w.chip, w'.chip, WithBit5(OpConfig(w.chip.mem)[0], false), OpConfig(w.chip.mem)[1])
       case GetConfig(cls, offset, data) =>
         && Frame(w, w') && w'.gaugeOn == w.gaugeOn
         && GetConfigEffect(w.chip, w'.chip, w.sealCode, w.gaugeOn, cls, offset, |data|, true, data)
       case SetConfig(cls, offset, data) =>
         && Frame(w, w') && w'.gaugeOn == w.gaugeOn
         && SetConfigEffect(w.chip, w'.chip, w.sealCode, w.gaugeOn, cls, offset, data, true)
       case Seal =>
         && Frame(w, w') && w'.gaugeOn == w.gaugeOn
         && (w.gaugeOn || w'.chip.hibernate)
         && w'.chip.sealed && w'.chip.mem == (if w.chip.sealed then w.chip.mem else SetReseal(w.chip.mem))
       case Unseal(code) =>
         && Frame(w, w') && w'.gaugeOn == w.gaugeOn
         && (w.gaugeOn || w'.chip.hibernate)
         && !w'.chip.sealed && !Reseal(w'.chip.mem)
         && (code != RESET ==> w'.chip.mem == ClearReseal(w.chip.mem))
       case HardReset =>
         && Frame(w, w') && w'.gaugeOn == w.gaugeOn
         && (w.gaugeOn || w'.chip.hibernate)
         && Shaped(w.chip.rom) && w'.chip.sealed == w.chip.sealed
         && w'.chip.mem in (if w.chip.sealed then {w.chip.mem, SetReseal(w.chip.rom)} else {w.chip.rom})
  }

  /** The transfer that sends a control word. */
  function Sent(w: word, ok: bool): (t: Transfer)
    ensures !IsBlockWrite(t) && !SawUpdate(t, true)
  {
    Wrote([0x00, w % 256, w / 256], ok)
  }

  /** From entry `n` on, register `reg` was asked for but did not come through. */
  predicate Unread(log: seq<Transfer>, n: nat, reg: byte)
  {
    || (n < |log| && log[n] == Wrote([reg], false))
    || (n + 1 < |log| && log[n + 1].Fetched? && !log[n + 1].ok)
  }

  predicate ShowsSealed(t: Transfer)
  {
    t.Fetched? && t.ok && |t.data| == 2 && BitSet(t.data[1], 32)
  }

  /** The three transfers of a seal query from entry `n` on; `sealed` if all came through and bit 5 of
      the high byte was set. */
  predicate SealQuery(log: seq<Transfer>, n: nat, sealed: bool)
  {
    if sealed then
      && n + 2 < |log| && log[n] == Sent(CONTROL_STATUS, true) && log[n + 1] == Wrote([0], true)
      && ShowsSealed(log[n + 2])
    else
      || (n < |log| && log[n] == Sent(CONTROL_STATUS, false))
      || (n + 1 < |log| && log[n + 1] == Wrote([0], false))
      || (n + 2 < |log| && log[n + 2].Fetched? && !ShowsSealed(log[n + 2]))
  }

  predicate ShowsOpen(t: Transfer)
  {
    t.Fetched? && t.ok && |t.data| == 2 && !BitSet(t.data[1], 32)
  }

  /** The three transfers of a seal query from entry `n` on came through and showed an unsealed chip. */
  predicate OpenQuery(log: seq<Transfer>, n: nat)
  {
    && n + 2 < |log| && log[n] == Sent(CONTROL_STATUS, true) && log[n + 1] == Wrote([0], true)
    && ShowsOpen(log[n + 2])
  }

  /** From entry `n` on, the chip was told to seal itself, whether or not it heard. */
  ghost predicate ToldToSeal(log: seq<Transfer>, n: nat)
  {
    exists k :: n <= k < |log| && log[k] == Sent(0x0020, log[k].ok)
  }

  /** From entry `n` on, the chip's checksum was read, and it is that of `block`. */
  ghost predicate Vouched(log: seq<Transfer>, n: nat, block: seq<byte>)
  {
    exists k :: n <= k < |log| && log[k] == Fetched(0x60, [Checksum(block)], true)
  }

  /** The last transfer of the call told an idle chip to sleep, whether or not it heard. */
  predicate EndsAsleep(before: seq<Transfer>, log: seq<Transfer>, gaugeOn: bool)
  {
    !gaugeOn ==> |log| > |before| && log[|log| - 1] == Sent(0x0011, log[|log| - 1].ok)
  }

  /** The chip was told that a battery is in, as it must be for gauging without the detect pin. */
  ghost predicate Announced(before: seq<Transfer>, log: seq<Transfer>)
  {
    exists k :: |before| <= k < |log| && log[k] == Sent(0x000C, true)
  }

  /** The transfers that wake an idle chip, and those that send it back to sleep. */
  function Waking(gaugeOn: bool): seq<Transfer>
  {
    if gaugeOn then [] else [Sent(0x0012, true)]
  }

  function Sleeping(gaugeOn: bool, ok: bool): seq<Transfer>
  {
    if gaugeOn then [] else [Sent(0x0011, ok)]
  }

  /** The transfers that read the register pair at `reg`. */
  function Reads(reg: byte, data: word): seq<Transfer>
  {
    [Wrote([reg], true), Fetched(reg, [data % 256, data / 256], true)]
  }

  /** The call woke an idle chip, read `reg` while it was awake and sent it back to sleep, with no
      other transfer; and what it reports is right for the word it read. */
  ghost predicate Measured(before: seq<Transfer>, log: seq<Transfer>, gaugeOn: bool, reg: byte, reports: word -> bool)
  {
    exists data: word :: log == before + Waking(gaugeOn) + Reads(reg, data) + Sleeping(gaugeOn, true) && reports(data)
  }

  /** A sealed chip takes the word for a reset and ignores it, so a reset whose seal query got no
      answer reports success with the memory as it was. */
  lemma LostQuerySkipsReset(d: Device)
    requires d.Valid() && d.chip.sealed && d.chip.mem != d.chip.rom
    ensures Acks(d, 0) && PokeAll(d, 0, [0x41, 0x00]).chip == d.chip
    ensures Succeeds(HardReset, World(d.chip, true, true, 0), World(PokeAll(d, 0, [0x41, 0x00]).chip, true, true, 0))
    ensures PokeAll(d, 0, [0x41, 0x00]).chip.mem != d.chip.rom
  {
    PokePair(d, 0, 0x41, 0x00);
  }

  function SetBit5(b: byte): (r: byte)
    requires !BitSet(b, 32)
    ensures r == WithBit5(b, true)
  {
    b + 32
  }

  function ClearBit5(b: byte): (r: byte)
    requires BitSet(b, 32)
    ensures r == WithBit5(b, false)
  {
    b - 32
  }

  /** Two one-byte writes on either side of the 31/32 block boundary equal one two-byte write. */
  lemma SplitWriteIsOneWrite(m: Memory, a: seq<byte>, b: seq<byte>)
    requires Shaped(m) && |a| == |b| == 1
    ensures MemWrite(MemWrite(m, 82, 31, a), 82, 32, b) == MemWrite(m, 82, 31, a + b)
  {
    assert Splice(Splice(m[82], 31, a), 32, b) == Splice(m[82], 31, a + b);
  }

  /** The three writes of init, taken as one change of the memory. */
  lemma InitWrites(m: Memory)
    requires Shaped(m)
    ensures Fits(31, 1) && Fits(32, 1) && Fits(9, 2)
    ensures WriteSlice(WriteSlice(WriteSlice(m, 82, 31, [3]), 82, 32, [232]), 68, 9, [19, 136]) == InitMemory(m)
  {
    SplitWriteIsOneWrite(m, [3], [232]);
    assert [3] + [232] == Be16(1000) && [19, 136] == Be16(5000);
  }

  /** The burst and the checksum that matches the overlaid block commit a plain write of the data. */
  lemma BlockCommits(d: Device, cls: byte, offset: nat, data: seq<byte>)
    requires d.Valid() && Fits(offset, |data|) && offset % 32 + |data| <= 32 && d.chip.cfgUpdate
    requires d.regs.cls == cls && d.regs.blk == offset / 32 % 256
    requires d.regs.window == Block(d.chip.mem, cls, offset / 32 % 256)
    ensures var d1, local := PokeAll(d, BLOCK_DATA + offset % 32, data), Splice(d.regs.window, offset % 32, data);
      && d1.chip == d.chip && |local| == BLOCK
      && Poke(d1, BLOCK_CHECKSUM, Checksum(local)).chip == d.chip.(mem := WriteSlice(d.chip.mem, cls, offset, data))
  {
    BurstFillsWindow(d, offset % 32, data);
    BlockAddress(offset);
    CommitIsFlatWrite(d.chip.mem, cls, offset / 32 % 256, offset % 32, data);
  }

  lemma {:induction false} SumUpdate(s: seq<byte>, i: nat, b: byte)
    requires i < |s|
    ensures Sum(s[i := b]) == Sum(s) - s[i] + b
    decreases |s|
  {
    var n, u := |s| - 1, s[i := b];
    if i < n {
      SumUpdate(s[..n], i, b);
      assert u[..n] == s[..n][i := b];
    } else {
      assert u[..n] == s[..n];
    }
  }

  /** A block with one byte read wrong does not have the checksum of the block. */
  lemma {:induction false} CorruptionShows(block: seq<byte>, i: nat, b: byte)
    requires i < |block| && b != block[i]
    ensures Checksum(block[i := b]) != Checksum(block)
  {
    SumUpdate(block, i, b);
  }

  /** The bytes at `offset` of the window are the slice of flat memory. */
  lemma WindowIsSlice(m: Memory, cls: byte, offset: nat, length: nat)
    requires Shaped(m) && Fits(offset, length)
    ensures offset % 32 + length <= 32
    ensures ReadSlice(m, cls, offset, length) == Block(m, cls, offset / 32 % 256)[offset % 32..offset % 32 + length]
  {
    FitsInClass(offset, length);
    BlockAddress(offset);
    SliceOfSlice(m[cls], BLOCK * (offset / 32 % 256), BLOCK, offset % 32, length);
  }

  lemma ReconfiguredByRead(c: Chip, c': Chip, code: word, data: seq<byte>)
    requires Shaped(c.mem) && ReadSpec(c, c', code, 64, 0, 2, true, data)
    ensures data == OpConfig(c.mem) && Reconfigured(c, c', data[0], data[1])
  {
  }

  lemma ReconfiguredByWrite(c: Chip, c1: Chip, c': Chip, code: word, data: seq<byte>, hi: byte, lo: byte)
    requires Shaped(c.mem) && ReadSpec(c, c1, code, 64, 0, 2, true, data)
    requires data != [hi, lo] && WriteSpec(c1, c', code, 64, 0, [hi, lo], true)
    ensures Reconfigured(c, c', hi, lo)
  {
  }

  /** Trying seal codes on a sealed chip can do no more than unseal it or send it a hibernate word. */
  lemma SealedChipUnseals(c: Chip, c': Chip, code: word, ok: bool)
    requires Shaped(c.mem) && Shaped(c.rom) && c.sealed && UnsealSpec(c, c', code, ok)
    ensures c' == c.(sealed := c'.sealed, hibernate := c'.hibernate)
    ensures ok || !HibernateWord(code) ==> c'.hibernate == c.hibernate
  {
  }

  /** What is read from sub-class 82 at offset 2, and what clearing its top bit does. */
  lemma UpdateStatusByte(m: Memory)
    requires Shaped(m)
    ensures Fits(2, 1) && ReadSlice(m, 82, 2, 1) == [m[82][2]]
    ensures BitSet(m[82][2], 128) == Reseal(m)
    ensures Reseal(m) ==> ClearReseal(m) == WriteSlice(m, 82, 2, [m[82][2] - 128])
  {
  }

  /** Unsealing leaves the memory alone, unless the code given is the word for a reset. */
  lemma UnsealingKeepsMemory(c: Chip, c': Chip, code: word)
    requires Shaped(c.mem) && Shaped(c.rom) && UnsealSpec(c, c', code, true)
    ensures code != RESET ==> c'.mem == c.mem
    ensures c'.latency == c.latency
  {
  }

  lemma AnnouncedStays(before: seq<Transfer>, log: seq<Transfer>, more: seq<Transfer>)
    ensures Announced(before, log) ==> Announced(before, log + more)
  {
    if Announced(before, log) {
      var k :| |before| <= k < |log| && log[k] == Sent(BAT_INSERT, true);
      assert (log + more)[k] == log[k];
    }
  }

  /** Once the flag has been seen set, whatever is written later in the call is guarded. */
  lemma EvidenceGuards(seen: seq<Transfer>, log: seq<Transfer>, n: nat)
    requires seen <= log && HarmlessFrom(seen, n)
    requires exists j :: n <= j < |seen| && SawUpdate(seen[j], true)
    ensures GuardedFrom(log, n)
  {
  }

  lemma GuardedAppend(before: seq<Transfer>, log: seq<Transfer>, n: nat)
    requires n <= |before| && before <= log && HarmlessFrom(before, n) && GuardedFrom(log, |before|)
    ensures GuardedFrom(log, n)
  {
  }

  lemma GuardedThenHarmless(before: seq<Transfer>, log: seq<Transfer>, n: nat)
    requires before <= log && GuardedFrom(before, n) && HarmlessFrom(log, |before|)
    ensures GuardedFrom(log, n)
  {
  }

  // ---------------------------------------------------------------- the driver

  class BatteryGaugeBq27441 {
    var gpI2c: I2cBus?
    var gAddress: int
    var gSealCode: word
    var gReady: bool
    var gGaugeOn: bool

    constructor ()
      ensures gpI2c == null && !gReady && !gGaugeOn && gSealCode == 0
    {
      gpI2c, gReady, gGaugeOn, gSealCode := null, false, false, 0;
    }

    /** The bus may be used: it is there, well formed and held. */
    ghost predicate Held()
      reads this, gpI2c
    {
      gpI2c != null && gpI2c.Valid() && gpI2c.lockDepth > 0
    }

    ghost predicate Usable()
      reads this, gpI2c
    {
      gpI2c != null ==> gpI2c.Valid()
    }

    ghost function Snapshot(): World
      requires gpI2c != null
      reads this, gpI2c
    {
      World(gpI2c.dev.chip, gReady, gGaugeOn, gSealCode)
    }

    // Sends one control word.
    method SendControl(w: word) returns (ok: bool)
      requires Held()
      modifies gpI2c`dev, gpI2c`pointer, gpI2c`log
      ensures Held()
      ensures ok ==> gpI2c.dev == Control(old(gpI2c.dev).(regs := old(gpI2c.dev.regs).(low := w % 256)), w)
      ensures !ok ==> gpI2c.dev == old(gpI2c.dev)
      ensures gpI2c.reliable ==> ok
      ensures gpI2c.log == old(gpI2c.log) + [Sent(w, ok)]
    {
      PokePair(gpI2c.dev, 0, w % 256, w / 256);
      ok := gpI2c.Write([0x00, w % 256, w / 256]);
      assert [0x00, w % 256, w / 256][1..] == [w % 256, w / 256];
    }

    // Sets one register to one byte.
    method SetRegister(reg: byte, b: byte) returns (ok: bool)
      requires Held()
      modifies gpI2c`dev, gpI2c`pointer, gpI2c`log
      ensures Held()
      ensures ok ==> Acks(old(gpI2c.dev), reg) && gpI2c.dev == Poke(old(gpI2c.dev), reg, b) && gpI2c.pointer == reg + 1
      ensures !ok ==> gpI2c.dev == old(gpI2c.dev)
      ensures gpI2c.reliable && Acks(old(gpI2c.dev), reg) ==> ok
      ensures gpI2c.log == old(gpI2c.log) + [Wrote([reg, b], ok)]
    {
      ok := gpI2c.Write([reg, b]);
      assert [reg, b][1..] == [b];
      assert PokeAll(Poke(old(gpI2c.dev), reg, b), reg + 1, [b][1..]) == Poke(old(gpI2c.dev), reg, b);
    }

    // Reads `n` bytes starting at register `reg`.
    method ReadFrom(reg: byte, n: nat) returns (ok: bool, data: seq<byte>)
      requires Held()
      modifies gpI2c`dev, gpI2c`pointer, gpI2c`log
      ensures Held() && gpI2c.dev == old(gpI2c.dev) && |data| == n
      ensures ok ==> Acks(gpI2c.dev, reg) && forall i :: 0 <= i < n ==> Answers(gpI2c.dev, reg + i, data[i])
      ensures gpI2c.reliable && Acks(gpI2c.dev, reg) ==> ok
      ensures old(gpI2c.log) <= gpI2c.log && HarmlessFrom(gpI2c.log, |old(gpI2c.log)|)
      ensures ok ==> gpI2c.log == old(gpI2c.log) + [Wrote([reg], true), Fetched(reg, data, true)]
      ensures !ok ==> Unread(gpI2c.log, |old(gpI2c.log)|, reg)
      ensures !ok ==> forall i :: |old(gpI2c.log)| <= i < |gpI2c.log| ==> !SawUpdate(gpI2c.log[i], true)
    {
      data := seq(n, _ => 0);
      ok := gpI2c.Write([reg]);
      if ok {
        ok, data := gpI2c.Read(n);
      }
    }

    method GetTwoBytes(registerAddress: byte) returns (ok: bool, bytes: word)
      requires Held()
      modifies gpI2c`dev, gpI2c`pointer, gpI2c`log
      ensures Held() && gpI2c.dev == old(gpI2c.dev)
      ensures ok ==>
        Answers(gpI2c.dev, registerAddress, bytes % 256) && Answers(gpI2c.dev, registerAddress + 1, bytes / 256)
      ensures gpI2c.reliable && Acks(gpI2c.dev, registerAddress) ==> ok
      ensures old(gpI2c.log) <= gpI2c.log && HarmlessFrom(gpI2c.log, |old(gpI2c.log)|)
      ensures !ok ==> Unread(gpI2c.log, |old(gpI2c.log)|, registerAddress)
      ensures ok ==> gpI2c.log == old(gpI2c.log) + Reads(registerAddress, bytes)
    {
      bytes := 0;
      var data;
      ok, data := ReadFrom(registerAddress, 2);
      if ok {
        var lo: int, hi: int := data[0], data[1];
        bytes := hi * 256 + lo;
        assert data == [bytes % 256, bytes / 256];
        assert Answers(gpI2c.dev, registerAddress + 0, data[0]) && Answers(gpI2c.dev, registerAddress + 1, data[1]);
      }
    }

    method ComputeChecksum(pData: seq<byte>) returns (checkSum: byte)
      requires |pData| == 32
      ensures checkSum == Checksum(pData)
    {
      checkSum := 0;
      for x := 1 to 33
        invariant checkSum == Sum(pData[..x - 1]) % 256
      {
        assert pData[..x] == pData[..x - 1] + [pData[x - 1]];
        SumAppend(pData[..x - 1], pData[x - 1]);
        checkSum := (checkSum + pData[x - 1]) % 256;
      }
      assert pData[..32] == pData;
      checkSum := 0xff - checkSum;
    }

    // Reads the control status register; bit 13 shows a sealed chip.
    method ReadSealedBit() returns (ok: bool, sealed: bool)
      requires Held()
      modifies gpI2c`dev, gpI2c`pointer, gpI2c`log
      ensures Held() && gpI2c.dev.chip == old(gpI2c.dev.chip)
      ensures ok ==> sealed == gpI2c.dev.chip.sealed
      ensures gpI2c.reliable ==> ok
      ensures SealQuery(gpI2c.log, |old(gpI2c.log)|, ok && sealed)
      ensures (ok && !sealed) == OpenQuery(gpI2c.log, |old(gpI2c.log)|)
      ensures ok ==> |gpI2c.log| == |old(gpI2c.log)| + 3
      ensures old(gpI2c.log) <= gpI2c.log && HarmlessFrom(gpI2c.log, |old(gpI2c.log)|)
    {
      sealed := false;
      ok := SendControl(CONTROL_STATUS);
      if ok {
        var controlStatus;
        ok, controlStatus := GetTwoBytes(0);
        sealed := BitSet(controlStatus, 0x2000);
        assert controlStatus / 0x2000 == controlStatus / 256 / 32;
      }
    }

    method IsSealed() returns (sealed: bool)
      requires Held()
      modifies gpI2c`dev, gpI2c`pointer, gpI2c`log
      ensures Held() && gpI2c.dev.chip == old(gpI2c.dev.chip)
      ensures sealed ==> gpI2c.dev.chip.sealed
      ensures gpI2c.reliable ==> sealed == gpI2c.dev.chip.sealed
      ensures SealQuery(gpI2c.log, |old(gpI2c.log)|, sealed)
      ensures sealed ==> |gpI2c.log| == |old(gpI2c.log)| + 3
      ensures old(gpI2c.log) <= gpI2c.log && HarmlessFrom(gpI2c.log, |old(gpI2c.log)|)
    {
      var ok, bit := ReadSealedBit();
      sealed := ok && bit;
    }

    method SealChip() returns (success: bool)
      requires Held()
      modifies gpI2c`dev, gpI2c`pointer, gpI2c`log
      ensures Held() && gpI2c.dev.chip in {old(gpI2c.dev.chip), SelfSealed(old(gpI2c.dev.chip))}
      ensures success ==> gpI2c.dev.chip == SelfSealed(old(gpI2c.dev.chip))
      ensures ToldToSeal(gpI2c.log, |old(gpI2c.log)|)
      ensures success <==> SealQuery(gpI2c.log, |old(gpI2c.log)| + 1, true)
      ensures gpI2c.reliable ==> success
      ensures old(gpI2c.log) <= gpI2c.log && HarmlessFrom(gpI2c.log, |old(gpI2c.log)|)
    {
      success := SendControl(SEALED);
      assert gpI2c.log[|old(gpI2c.log)|] == Sent(0x0020, success);
      if success {
        var ok, bit := ReadSealedBit();
        success := ok && bit;
      }
    }

    method UnsealChip(sealCode: word) returns (success: bool)
      requires Held()
      modifies gpI2c`dev, gpI2c`pointer, gpI2c`log
      ensures Held() && UnsealSpec(old(gpI2c.dev.chip), gpI2c.dev.chip, sealCode, success)
      ensures gpI2c.reliable && Opens(old(gpI2c.dev.chip), sealCode) && !IsSubCommand(sealCode) ==> success
      ensures success <==> OpenQuery(gpI2c.log, |old(gpI2c.log)| + 2)
      ensures gpI2c.reliable ==> success != gpI2c.dev.chip.sealed
      ensures old(gpI2c.log) <= gpI2c.log && HarmlessFrom(gpI2c.log, |old(gpI2c.log)|)
    {
      success := SendControl(sealCode);
      if success {
        success := SendControl(sealCode);
        if success {
          var ok, bit := ReadSealedBit();
          success := ok && !bit;
        }
      }
    }

    // One poll of the CONFIGUPDATE flag and the wait after it.  A poll that fails shows nothing.
    method PollUpdate() returns (got: bool, flag: bool)
      requires Held()
      modifies gpI2c`dev, gpI2c`pointer, gpI2c`log
      ensures Held() && gpI2c.dev.chip == Tick(old(gpI2c.dev.chip))
      ensures got ==> flag == old(gpI2c.dev.chip.cfgUpdate)
      ensures gpI2c.reliable ==> got
      ensures old(gpI2c.log) <= gpI2c.log && HarmlessFrom(gpI2c.log, |old(gpI2c.log)|)
      ensures got ==> |gpI2c.log| > |old(gpI2c.log)| && SawUpdate(gpI2c.log[|gpI2c.log| - 1], flag)
    {
      var answer;
      got, answer := GetTwoBytes(FLAGS);
      assert answer / 16 == 16 * (answer / 256) + answer % 256 / 16;
      flag := BitSet(answer, 16);
      gpI2c.Wait();
    }

    // Asks for CONFIGUPDATE and polls the flag.
    method EnterConfigUpdate() returns (ok: bool)
      requires Held()
      modifies gpI2c`dev, gpI2c`pointer, gpI2c`log
      ensures Held()
      ensures var c := gpI2c.dev.chip;
        c == old(gpI2c.dev.chip).(cfgWanted := c.cfgWanted, cfgUpdate := c.cfgUpdate, settle := c.settle)
      ensures ok && !gpI2c.dev.chip.sealed ==> gpI2c.dev.chip.cfgWanted && gpI2c.dev.chip.cfgUpdate
      ensures gpI2c.reliable && !gpI2c.dev.chip.sealed && Prompt(gpI2c.dev.chip) ==> ok
      ensures gpI2c.reliable && !gpI2c.dev.chip.sealed && !old(gpI2c.dev.chip.cfgUpdate) ==>
        (ok <==> gpI2c.dev.chip.latency < 200)
      ensures old(gpI2c.log) <= gpI2c.log && HarmlessFrom(gpI2c.log, |old(gpI2c.log)|)
      ensures ok ==> exists j :: |old(gpI2c.log)| <= j < |gpI2c.log| && SawUpdate(gpI2c.log[j], true)
    {
      ok := SendControl(SET_CFGUPDATE);
      if ok {
        ghost var c0 := gpI2c.dev.chip;
        var count := 0;
        ok := false;
        while !ok && count < CONFIG_UPDATE_LOOPS
          invariant Held()
          invariant var c := gpI2c.dev.chip; c == c0.(cfgUpdate := c.cfgUpdate, settle := c.settle)
          invariant ok && c0.cfgWanted ==> gpI2c.dev.chip.cfgUpdate
          invariant gpI2c.reliable && !c0.sealed && !ok ==> Settling(gpI2c.dev.chip, true, count)
          invariant gpI2c.reliable && !c0.sealed && !old(gpI2c.dev.chip.cfgUpdate) ==>
            if ok then c0.latency < 200 else gpI2c.dev.chip.cfgUpdate ==> c0.latency <= count
          invariant old(gpI2c.log) <= gpI2c.log && HarmlessFrom(gpI2c.log, |old(gpI2c.log)|)
          invariant ok ==> |gpI2c.log| > |old(gpI2c.log)| && SawUpdate(gpI2c.log[|gpI2c.log| - 1], true)
        {
          var got, flag := PollUpdate();
          ok := got && flag;
          count := count + 1;
        }
      }
    }

    // Leaves CONFIGUPDATE by SOFT_RESET, which seals the chip if its reseal bit is set.
    method LeaveConfigUpdate() returns (ok: bool)
      requires Held()
      modifies gpI2c`dev, gpI2c`pointer, gpI2c`log
      ensures Held()
      ensures var c := gpI2c.dev.chip;
        c == old(gpI2c.dev.chip).(
          cfgWanted := c.cfgWanted, cfgUpdate := c.cfgUpdate, settle := c.settle, sealed := c.sealed)
      ensures ok && !old(gpI2c.dev.chip.sealed) ==>
        !gpI2c.dev.chip.cfgUpdate && gpI2c.dev.chip.sealed == Reseal(gpI2c.dev.chip.mem)
      ensures gpI2c.reliable && !old(gpI2c.dev.chip.sealed) && Prompt(gpI2c.dev.chip) ==> ok
      ensures gpI2c.reliable && !old(gpI2c.dev.chip.sealed) && old(gpI2c.dev.chip.cfgUpdate) ==>
        (ok <==> gpI2c.dev.chip.latency < 200)
      ensures old(gpI2c.log) <= gpI2c.log
      ensures ok ==> |gpI2c.log| > |old(gpI2c.log)| && SawUpdate(gpI2c.log[|gpI2c.log| - 1], false)
    {
      ghost var sealed := gpI2c.dev.chip.sealed;
      ok := SendControl(SOFT_RESET);
      if ok {
        ghost var c0 := gpI2c.dev.chip;
        var count := 0;
        ok := false;
        while !ok && count < CONFIG_UPDATE_LOOPS
          invariant Held()
          invariant var c := gpI2c.dev.chip; c == c0.(cfgUpdate := c.cfgUpdate, settle := c.settle)
          invariant ok && !c0.cfgWanted ==> !gpI2c.dev.chip.cfgUpdate
          invariant gpI2c.reliable && !sealed && !ok ==> Settling(gpI2c.dev.chip, false, count)
          invariant gpI2c.reliable && !sealed && old(gpI2c.dev.chip.cfgUpdate) ==>
            if ok then c0.latency < 200 else !gpI2c.dev.chip.cfgUpdate ==> c0.latency <= count
          invariant old(gpI2c.log) <= gpI2c.log
          invariant ok ==> |gpI2c.log| > |old(gpI2c.log)| && SawUpdate(gpI2c.log[|gpI2c.log| - 1], false)
        {
          var got, flag := PollUpdate();
          ok := got && !flag;
          count := count + 1;
        }
      }
    }

    // Selects the block that holds `offset`; the register address moves on to the block data.
    method SelectBlock(subClassId: byte, offset: nat) returns (ok: bool)
      requires Held()
      modifies gpI2c`dev, gpI2c`pointer, gpI2c`log
      ensures Held() && gpI2c.dev.chip == old(gpI2c.dev.chip)
      ensures ok ==>
        && !gpI2c.dev.chip.sealed && gpI2c.pointer == BLOCK_DATA
        && gpI2c.dev.regs.cls == subClassId && gpI2c.dev.regs.blk == offset / 32 % 256
        && gpI2c.dev.regs.window == Block(gpI2c.dev.chip.mem, subClassId, offset / 32 % 256)
      ensures gpI2c.reliable && !gpI2c.dev.chip.sealed ==> ok
      ensures old(gpI2c.log) <= gpI2c.log && HarmlessFrom(gpI2c.log, |old(gpI2c.log)|)
    {
      ok := SetRegister(BLOCK_CONTROL, 0);
      if ok {
        ok := SetRegister(BLOCK_CLASS, subClassId);
        if ok {
          ok := SetRegister(BLOCK_OFFSET, offset / 32 % 256);
        }
      }
    }

    // Compares a block that was read with the chip's checksum for the window.
    method BlockIsSound(block: seq<byte>) returns (ok: bool)
      requires Held() && |block| == 32
      modifies gpI2c`dev, gpI2c`pointer, gpI2c`log
      ensures Held() && gpI2c.dev == old(gpI2c.dev)
      ensures ok ==> Checksum(block) == Checksum(gpI2c.dev.regs.window)
      ensures gpI2c.reliable && !gpI2c.dev.chip.sealed ==> ok == (Checksum(block) == Checksum(gpI2c.dev.regs.window))
      ensures ok ==> Vouched(gpI2c.log, |old(gpI2c.log)|, block)
      ensures old(gpI2c.log) <= gpI2c.log && HarmlessFrom(gpI2c.log, |old(gpI2c.log)|)
    {
      var checkSum := ComputeChecksum(block);
      var answer;
      ok, answer := ReadFrom(BLOCK_CHECKSUM, 1);
      assert ok ==> Answers(gpI2c.dev, BLOCK_CHECKSUM + 0, answer[0]);
      ok := ok && answer[0] == checkSum;
      assert ok ==> gpI2c.log[|old(gpI2c.log)| + 1] == Fetched(0x60, [Checksum(block)], true);
    }

    // Reads the selected block and checks the chip's checksum for it.
    method LoadBlock(subClassId: byte, offset: nat) returns (ok: bool, block: seq<byte>)
      requires Held()
      modifies gpI2c`dev, gpI2c`pointer, gpI2c`log
      ensures Held() && gpI2c.dev.chip == old(gpI2c.dev.chip)
      ensures ok ==>
        && !gpI2c.dev.chip.sealed
        && gpI2c.dev.regs.cls == subClassId && gpI2c.dev.regs.blk == offset / 32 % 256
        && block == gpI2c.dev.regs.window == Block(gpI2c.dev.chip.mem, subClassId, offset / 32 % 256)
        && Vouched(gpI2c.log, |old(gpI2c.log)|, block)
      ensures gpI2c.reliable && !gpI2c.dev.chip.sealed ==> ok
      ensures old(gpI2c.log) <= gpI2c.log && HarmlessFrom(gpI2c.log, |old(gpI2c.log)|)
    {
      block := [];
      ok := SelectBlock(subClassId, offset);
      if ok {
        ok, block := gpI2c.Read(32);
        if ok {
          assert block == gpI2c.dev.regs.window by {
            forall i | 0 <= i < 32 ensures block[i] == gpI2c.dev.regs.window[i] {
              assert Answers(gpI2c.dev, BLOCK_DATA + i, block[i]);
            }
          }
          ok := BlockIsSound(block);
        }
      }
    }

    // Unseals the chip if it is seen to be sealed.
    method OpenUp() returns (wasSealed: bool, open: bool)
      requires Held()
      modifies gpI2c`dev, gpI2c`pointer, gpI2c`log
      ensures Held()
      ensures var c := gpI2c.dev.chip; c == old(gpI2c.dev.chip).(sealed := c.sealed, hibernate := c.hibernate)
      ensures !wasSealed ==> open && gpI2c.dev.chip == old(gpI2c.dev.chip)
      ensures wasSealed ==> old(gpI2c.dev.chip.sealed) && (open ==> !gpI2c.dev.chip.sealed)
      ensures gpI2c.reliable ==> open != gpI2c.dev.chip.sealed
      ensures open || !HibernateWord(gSealCode) ==> gpI2c.dev.chip.hibernate == old(gpI2c.dev.chip.hibernate)
      ensures gpI2c.reliable ==> wasSealed == old(gpI2c.dev.chip.sealed)
      ensures gpI2c.reliable && Opens(old(gpI2c.dev.chip), gSealCode) ==> open
      ensures SealQuery(gpI2c.log, |old(gpI2c.log)|, wasSealed)
      ensures wasSealed ==> (open <==> OpenQuery(gpI2c.log, |old(gpI2c.log)| + 5))
      ensures old(gpI2c.log) <= gpI2c.log && HarmlessFrom(gpI2c.log, |old(gpI2c.log)|)
    {
      wasSealed := IsSealed();
      open := !wasSealed;
      if wasSealed {
        open := UnsealChip(gSealCode);
        SealedChipUnseals(old(gpI2c.dev.chip), gpI2c.dev.chip, gSealCode, open);
      }
    }

    // The part of an extended read that follows unsealing.
    method ReadWindow(subClassId: byte, offset: nat, length: nat) returns (ok: bool, pData: seq<byte>)
      requires Held() && Fits(offset, length)
      modifies gpI2c`dev, gpI2c`pointer, gpI2c`log
      ensures Held() && gpI2c.dev.chip == old(gpI2c.dev.chip)
      ensures ok ==> !gpI2c.dev.chip.sealed && pData == ReadSlice(gpI2c.dev.chip.mem, subClassId, offset, length)
      ensures gpI2c.reliable && !gpI2c.dev.chip.sealed ==> ok
      ensures ok ==> Vouched(gpI2c.log, |old(gpI2c.log)|, Block(old(gpI2c.dev.chip.mem), subClassId, offset / 32 % 256))
      ensures old(gpI2c.log) <= gpI2c.log && HarmlessFrom(gpI2c.log, |old(gpI2c.log)|)
    {
      WindowIsSlice(gpI2c.dev.chip.mem, subClassId, offset, length);
      var block;
      ok, block := LoadBlock(subClassId, offset);
      pData := [];
      if ok {
        ok, pData := ReadFrom(BLOCK_DATA + offset % 32, length);
        if ok {
          assert pData == block[offset % 32..offset % 32 + length] by {
            forall i | 0 <= i < length ensures pData[i] == block[offset % 32 + i] {
              assert Answers(gpI2c.dev, BLOCK_DATA + offset % 32 + i, pData[i]);
            }
          }
        }
      }
    }

    // The part of an extended read before the chip is sealed again.
    method OpenAndRead(subClassId: byte, offset: nat, length: nat)
        returns (ok: bool, wasSealed: bool, pData: seq<byte>)
      requires Held() && Fits(offset, length)
      modifies gpI2c`dev, gpI2c`pointer, gpI2c`log
      ensures Held()
      ensures var c := gpI2c.dev.chip; c == old(gpI2c.dev.chip).(sealed := c.sealed, hibernate := c.hibernate)
      ensures if wasSealed then old(gpI2c.dev.chip.sealed) else gpI2c.dev.chip == old(gpI2c.dev.chip)
      ensures ok || !HibernateWord(gSealCode) ==> gpI2c.dev.chip.hibernate == old(gpI2c.dev.chip.hibernate)
      ensures ok ==> !gpI2c.dev.chip.sealed && pData == ReadSlice(gpI2c.dev.chip.mem, subClassId, offset, length)
      ensures gpI2c.reliable ==> wasSealed == old(gpI2c.dev.chip.sealed)
      ensures gpI2c.reliable && Opens(old(gpI2c.dev.chip), gSealCode) ==> ok
      ensures SealQuery(gpI2c.log, |old(gpI2c.log)|, wasSealed)
      ensures ok ==> Vouched(gpI2c.log, |old(gpI2c.log)|, Block(old(gpI2c.dev.chip.mem), subClassId, offset / 32 % 256))
      ensures old(gpI2c.log) <= gpI2c.log && HarmlessFrom(gpI2c.log, |old(gpI2c.log)|)
    {
      ok, pData := false, [];
      var open;
      wasSealed, open := OpenUp();
      if open {
        ok, pData := ReadWindow(subClassId, offset, length);
      }
    }

    method ReadExtendedData(subClassId: byte, offset: nat, length: nat) returns (success: bool, pData: seq<byte>)
      requires Held()
      modifies gpI2c`dev, gpI2c`pointer, gpI2c`log
      ensures Held()
      ensures ReadSpec(old(gpI2c.dev.chip), gpI2c.dev.chip, gSealCode, subClassId, offset, length, success, pData)
      ensures gpI2c.reliable && Opens(old(gpI2c.dev.chip), gSealCode) ==>
        (success <==> offset % 32 + length <= 32 && (length == 0 ==> offset == 0 || offset % 32 != 0))
      ensures gpI2c.reliable ==> gpI2c.dev.chip.sealed == old(gpI2c.dev.chip.sealed)
      ensures !Fits(offset, length) ==> gpI2c.log == old(gpI2c.log)
      ensures SealQuery(gpI2c.log, |old(gpI2c.log)|, true) ==> ToldToSeal(gpI2c.log, |old(gpI2c.log)|)
      ensures success ==>
        Vouched(gpI2c.log, |old(gpI2c.log)|, Block(old(gpI2c.dev.chip.mem), subClassId, offset / 32 % 256))
      ensures old(gpI2c.log) <= gpI2c.log && HarmlessFrom(gpI2c.log, |old(gpI2c.log)|)
    {
      success, pData := false, [];
      var wasSealed := false;
      FitsIff(offset, length);
      if Fits(offset, length) {
        success, wasSealed, pData := OpenAndRead(subClassId, offset, length);
      }
      if wasSealed {
        var resealed := SealChip();
        if !resealed {
          success := false;
        }
      }
    }

    // Writes the new bytes over the window and commits it with its new checksum.
    method CommitBlock(subClassId: byte, offset: nat, pData: seq<byte>, block: seq<byte>) returns (ok: bool)
      requires Held() && Fits(offset, |pData|)
      requires !gpI2c.dev.chip.sealed && gpI2c.dev.chip.cfgUpdate
      requires gpI2c.dev.regs.cls == subClassId && gpI2c.dev.regs.blk == offset / 32 % 256
      requires block == gpI2c.dev.regs.window == Block(gpI2c.dev.chip.mem, subClassId, offset / 32 % 256)
      modifies gpI2c`dev, gpI2c`pointer, gpI2c`log
      ensures Held()
      ensures gpI2c.dev.chip == old(gpI2c.dev.chip).(mem :=
        if ok then WriteSlice(old(gpI2c.dev.chip.mem), subClassId, offset, pData) else old(gpI2c.dev.chip.mem))
      ensures gpI2c.reliable ==> ok
      ensures old(gpI2c.log) <= gpI2c.log
    {
      FitsInClass(offset, |pData|);
      BlockCommits(gpI2c.dev, subClassId, offset, pData);
      var o := offset % 32;
      var data := [BLOCK_DATA + o] + pData;
      assert data[1..] == pData;
      ok := gpI2c.Write(data);
      if ok {
        var local := Splice(block, o, pData);
        var checkSum := ComputeChecksum(local);
        ok := SetRegister(BLOCK_CHECKSUM, checkSum);
      }
    }

    // The part of an extended write that follows unsealing.
    method WriteWindow(subClassId: byte, offset: nat, pData: seq<byte>) returns (ok: bool)
      requires Held() && Fits(offset, |pData|)
      modifies gpI2c`dev, gpI2c`pointer, gpI2c`log
      ensures Held()
      ensures var c := gpI2c.dev.chip;
        c == old(gpI2c.dev.chip).(
          mem := c.mem, cfgWanted := c.cfgWanted, cfgUpdate := c.cfgUpdate, settle := c.settle, sealed := c.sealed)
      ensures var m, m' := old(gpI2c.dev.chip.mem), gpI2c.dev.chip.mem;
        m' == m || m' == WriteSlice(m, subClassId, offset, pData)
      ensures ok ==>
        && gpI2c.dev.chip.mem == WriteSlice(old(gpI2c.dev.chip.mem), subClassId, offset, pData)
        && gpI2c.dev.chip.sealed == Reseal(gpI2c.dev.chip.mem)
        && !gpI2c.dev.chip.cfgUpdate
      ensures gpI2c.reliable && !old(gpI2c.dev.chip.sealed) && Prompt(old(gpI2c.dev.chip)) ==> ok
      ensures gpI2c.reliable && !old(gpI2c.dev.chip.sealed) && !old(gpI2c.dev.chip.cfgUpdate) ==>
        (ok <==> old(gpI2c.dev.chip.latency) < 200)
      ensures ok ==> Vouched(gpI2c.log, |old(gpI2c.log)|, Block(old(gpI2c.dev.chip.mem), subClassId, offset / 32 % 256))
      ensures old(gpI2c.log) <= gpI2c.log && GuardedFrom(gpI2c.log, |old(gpI2c.log)|)
      ensures ok ==> |gpI2c.log| > |old(gpI2c.log)| && SawUpdate(gpI2c.log[|gpI2c.log| - 1], false)
    {
      ok := EnterConfigUpdate();
      if ok {
        ghost var seen := gpI2c.log;
        var block;
        ok, block := LoadBlock(subClassId, offset);
        if ok {
          ok := CommitBlock(subClassId, offset, pData, block);
          if ok {
            ok := LeaveConfigUpdate();
          }
        }
        EvidenceGuards(seen, gpI2c.log, |old(gpI2c.log)|);
      }
    }

    // The part of an extended write before the chip is sealed again.
    method OpenAndWrite(subClassId: byte, offset: nat, pData: seq<byte>) returns (ok: bool, wasSealed: bool)
      requires Held() && Fits(offset, |pData|)
      modifies gpI2c`dev, gpI2c`pointer, gpI2c`log
      ensures Held()
      ensures var c := gpI2c.dev.chip;
        c == old(gpI2c.dev.chip).(
          mem := c.mem, cfgWanted := c.cfgWanted, cfgUpdate := c.cfgUpdate, settle := c.settle,
          sealed := c.sealed, hibernate := c.hibernate)
      ensures var m, m' := old(gpI2c.dev.chip.mem), gpI2c.dev.chip.mem;
        m' == m || m' == WriteSlice(m, subClassId, offset, pData)
      ensures ok || !HibernateWord(gSealCode) ==> gpI2c.dev.chip.hibernate == old(gpI2c.dev.chip.hibernate)
      ensures ok ==>
        && gpI2c.dev.chip.mem == WriteSlice(old(gpI2c.dev.chip.mem), subClassId, offset, pData)
        && gpI2c.dev.chip.sealed == Reseal(gpI2c.dev.chip.mem)
        && !gpI2c.dev.chip.cfgUpdate
      ensures wasSealed ==> old(gpI2c.dev.chip.sealed)
      ensures gpI2c.reliable ==> wasSealed == old(gpI2c.dev.chip.sealed)
      ensures gpI2c.reliable && Writable(old(gpI2c.dev.chip), gSealCode) ==> ok
      ensures gpI2c.reliable && Opens(old(gpI2c.dev.chip), gSealCode) && !old(gpI2c.dev.chip.cfgUpdate) ==>
        (ok <==> old(gpI2c.dev.chip.latency) < 200)
      ensures SealQuery(gpI2c.log, |old(gpI2c.log)|, wasSealed)
      ensures ok ==> Vouched(gpI2c.log, |old(gpI2c.log)|, Block(old(gpI2c.dev.chip.mem), subClassId, offset / 32 % 256))
      ensures old(gpI2c.log) <= gpI2c.log && GuardedFrom(gpI2c.log, |old(gpI2c.log)|)
      ensures ok ==> |gpI2c.log| > |old(gpI2c.log)| && SawUpdate(gpI2c.log[|gpI2c.log| - 1], false)
    {
      ok := false;
      var open;
      wasSealed, open := OpenUp();
      if open {
        ghost var before := gpI2c.log;
        ok := WriteWindow(subClassId, offset, pData);
        GuardedAppend(before, gpI2c.log, |old(gpI2c.log)|);
      }
    }

    method WriteExtendedData(subClassId: byte, offset: nat, pData: seq<byte>) returns (success: bool)
      requires Held()
      modifies gpI2c`dev, gpI2c`pointer, gpI2c`log
      ensures Held()
      ensures WriteSpec(old(gpI2c.dev.chip), gpI2c.dev.chip, gSealCode, subClassId, offset, pData, success)
      ensures gpI2c.reliable && Writable(old(gpI2c.dev.chip), gSealCode) ==>
        (success <==> offset % 32 + |pData| <= 32 && (|pData| == 0 ==> offset == 0 || offset % 32 != 0))
      ensures gpI2c.reliable && Opens(old(gpI2c.dev.chip), gSealCode) && !old(gpI2c.dev.chip.cfgUpdate) ==>
        (success <==> Fits(offset, |pData|) && old(gpI2c.dev.chip.latency) < 200)
      ensures gpI2c.reliable && old(gpI2c.dev.chip.sealed) && !success ==> gpI2c.dev.chip.sealed
      ensures !Fits(offset, |pData|) ==> gpI2c.log == old(gpI2c.log)
      ensures SealQuery(gpI2c.log, |old(gpI2c.log)|, true) && !success ==> ToldToSeal(gpI2c.log, |old(gpI2c.log)|)
      ensures success ==>
        Vouched(gpI2c.log, |old(gpI2c.log)|, Block(old(gpI2c.dev.chip.mem), subClassId, offset / 32 % 256))
      ensures old(gpI2c.log) <= gpI2c.log && GuardedFrom(gpI2c.log, |old(gpI2c.log)|)
      ensures success ==> |gpI2c.log| > |old(gpI2c.log)| && SawUpdate(gpI2c.log[|gpI2c.log| - 1], false)
    {
      success := false;
      var wasSealed := false;
      FitsIff(offset, |pData|);
      if Fits(offset, |pData|) {
        success, wasSealed := OpenAndWrite(subClassId, offset, pData);
      }
      if !success && wasSealed {
        ghost var before := gpI2c.log;
        var resealed := SealChip();
        GuardedThenHarmless(before, gpI2c.log, |old(gpI2c.log)|);
        if !resealed {
          success := false;
        }
      }
    }

    method MakeAdcReading() returns (success: bool)
      requires gpI2c != null && gpI2c.Valid()
      modifies gpI2c
      ensures gpI2c.Valid() && gpI2c.lockDepth == old(gpI2c.lockDepth)
      ensures gpI2c.dev.chip == if success then old(gpI2c.dev.chip).(hibernate := false) else old(gpI2c.dev.chip)
      ensures gpI2c.reliable ==> success
      ensures gpI2c.log == old(gpI2c.log) + [Sent(CLEAR_HIBERNATE, success)]
    {
      gpI2c.Lock();
      success := SendControl(CLEAR_HIBERNATE);
      gpI2c.Unlock();
    }

    method SetHibernate() returns (success: bool)
      requires Held()
      modifies gpI2c`dev, gpI2c`pointer, gpI2c`log
      ensures Held()
      ensures gpI2c.dev.chip == if success then old(gpI2c.dev.chip).(hibernate := true) else old(gpI2c.dev.chip)
      ensures gpI2c.reliable ==> success
      ensures gpI2c.log == old(gpI2c.log) + [Sent(SET_HIBERNATE, success)]
    {
      success := SendControl(SET_HIBERNATE);
    }

    // Returns the chip to hibernation when the gauge is off.
    method ReturnToSleep() returns (done: bool)
      requires Held()
      modifies gpI2c`dev, gpI2c`pointer, gpI2c`log
      ensures Held() && Hibernated(old(gpI2c.dev.chip), gpI2c.dev.chip, gGaugeOn, done)
      ensures gpI2c.reliable ==> done
      ensures gpI2c.log == old(gpI2c.log) + Sleeping(gGaugeOn, done)
    {
      done := true;
      if !gGaugeOn {
        done := SetHibernate();
      }
    }

    // Sleep Current to its maximum, in two writes because it crosses a block boundary, then Hibernate V.
    method WriteInitialConfig() returns (ok: bool)
      requires Held()
      modifies gpI2c`dev, gpI2c`pointer, gpI2c`log
      ensures Held()
      ensures ok ==>
        gpI2c.dev.chip.mem == InitMemory(old(gpI2c.dev.chip.mem)) && gpI2c.dev.chip.sealed == Reseal(gpI2c.dev.chip.mem)
      ensures gpI2c.reliable && Prompt(old(gpI2c.dev.chip)) && AlwaysOpens(old(gpI2c.dev.chip), gSealCode) ==> ok
      ensures gpI2c.reliable && Opens(old(gpI2c.dev.chip), gSealCode) && !old(gpI2c.dev.chip.cfgUpdate) && ok ==>
        old(gpI2c.dev.chip.latency) < 200
      ensures old(gpI2c.log) <= gpI2c.log
    {
      InitWrites(gpI2c.dev.chip.mem);
      ok := WriteExtendedData(82, 31, [1000 / 256]);
      if ok {
        ok := WriteExtendedData(82, 32, [1000 % 256]);
        if ok {
          ok := WriteExtendedData(68, 9, [5000 / 256, 5000 % 256]);
        }
      }
    }

    // Reads the firmware version.
    method ReadFirmware() returns (ok: bool, answer: word)
      requires Held()
      modifies gpI2c`dev, gpI2c`pointer, gpI2c`log
      ensures Held() && gpI2c.dev.chip == old(gpI2c.dev.chip)
      ensures ok ==> answer == gpI2c.dev.chip.firmware
      ensures gpI2c.reliable ==> ok
      ensures old(gpI2c.log) < gpI2c.log
      ensures gpI2c.log[|old(gpI2c.log)|] == Sent(0x0002, gpI2c.log[|old(gpI2c.log)|].ok)
    {
      answer := 0;
      ok := SendControl(FW_VERSION);
      if ok {
        ok, answer := GetTwoBytes(0);
      }
    }

    method Init(pI2c: I2cBus?, address: int, sealCode: word) returns (ready: bool)
      requires pI2c != null ==> pI2c.Valid()
      modifies this, pI2c
      ensures ready == gReady && gpI2c == pI2c && gSealCode == sealCode && gGaugeOn == old(gGaugeOn)
      ensures pI2c == null ==> ready == old(gReady)
      ensures pI2c != null ==> pI2c.Valid() && pI2c.lockDepth == old(pI2c.lockDepth)
      ensures pI2c != null && pI2c.reliable && old(Welcomes(pI2c.dev.chip, sealCode)) ==> ready
      ensures gAddress == address * 2 % 256
      ensures pI2c != null && ready && !old(gReady) ==> old(pI2c.dev.chip).firmware == 0x0109
      ensures pI2c != null && ready && !old(gReady) && pI2c.reliable && Opens(old(pI2c.dev.chip), sealCode) ==>
        old(pI2c.dev.chip).cfgUpdate || old(pI2c.dev.chip).latency < 200
      ensures pI2c != null ==>
        |pI2c.log| > |old(pI2c.log)| && pI2c.log[|old(pI2c.log)|] == Sent(0x0002, pI2c.log[|old(pI2c.log)|].ok)
      ensures pI2c != null && old(gReady) && !ready ==> pI2c.log[|pI2c.log| - 1] == Sent(0x0011, false)
      ensures pI2c != null && ready ==>
        Succeeds(Call.Init(sealCode), World(old(pI2c.dev.chip), old(gReady), old(gGaugeOn), old(gSealCode)), Snapshot())
    {
      gpI2c := pI2c;
      gAddress := address * 2 % 256;
      gSealCode := sealCode;
      if gpI2c != null {
        gpI2c.Lock();
        var ok, answer := ReadFirmware();
        if ok && answer / 256 == 0x01 && answer % 256 == 0x09 {
          ok := WriteInitialConfig();
          if ok {
            gReady := SetHibernate();
          }
        }
        gpI2c.Unlock();
      }
      ready := gReady;
    }

    // Writes OpConfig back, `data` having been read when the chip was `c0`.
    method ChangeOpConfig(ghost c0: Chip, data: seq<byte>, hi: byte, lo: byte) returns (success: bool)
      requires Held() && Shaped(c0.mem) && data != [hi, lo]
      requires ReadSpec(c0, gpI2c.dev.chip, gSealCode, 64, 0, 2, true, data)
      modifies gpI2c`dev, gpI2c`pointer, gpI2c`log
      ensures Held()
      ensures gpI2c.reliable && Writable(c0, gSealCode) ==> success
      ensures success ==> gpI2c.dev.chip.hibernate == c0.hibernate && Reconfigured(c0, gpI2c.dev.chip, hi, lo)
      ensures old(gpI2c.log) <= gpI2c.log
    {
      ghost var c1 := gpI2c.dev.chip;
      success := WriteExtendedData(64, 0, [hi, lo]);
      if success {
        ReconfiguredByWrite(c0, c1, gpI2c.dev.chip, gSealCode, data, hi, lo);
      }
    }

    // SLEEP, bit 5 of the low byte of OpConfig.
    method SetSleep(isSlow: bool) returns (success: bool)
      requires Held()
      modifies gpI2c`dev, gpI2c`pointer, gpI2c`log
      ensures Held()
      ensures gpI2c.reliable && Writable(old(gpI2c.dev.chip), gSealCode) ==> success
      ensures success ==> gpI2c.dev.chip.hibernate == old(gpI2c.dev.chip.hibernate)
      ensures success ==>
        var was := OpConfig(old(gpI2c.dev.chip.mem));
        Reconfigured(old(gpI2c.dev.chip), gpI2c.dev.chip, was[0], WithBit5(was[1], isSlow))
      ensures old(gpI2c.log) <= gpI2c.log
    {
      ghost var c0 := gpI2c.dev.chip;
      var data;
      success, data := ReadExtendedData(64, 0, 2);
      if success {
        ReconfiguredByRead(c0, gpI2c.dev.chip, gSealCode, data);
        if isSlow && !BitSet(data[1], 32) {
          success := ChangeOpConfig(c0, data, data[0], SetBit5(data[1]));
        } else if !isSlow && BitSet(data[1], 32) {
          success := ChangeOpConfig(c0, data, data[0], ClearBit5(data[1]));
        }
      }
    }

    method EnableGauge(isSlow: bool) returns (success: bool)
      requires Usable()
      modifies this`gGaugeOn, gpI2c
      ensures Usable() && (gpI2c != null ==> gpI2c.lockDepth == old(gpI2c.lockDepth))
      ensures gpI2c == null || !gReady ==> !success
      ensures gpI2c != null && gReady && gpI2c.reliable && Writable(old(gpI2c.dev.chip), gSealCode) ==> success
      ensures success ==> Succeeds(Call.EnableGauge(isSlow), old(Snapshot()), Snapshot())
      ensures gpI2c != null && gReady ==>
        && old(gpI2c.log) < gpI2c.log
        && gpI2c.log[|old(gpI2c.log)|] == Sent(0x0012, gpI2c.log[|old(gpI2c.log)|].ok)
        && gGaugeOn == (old(gGaugeOn) || gpI2c.log[|old(gpI2c.log)|].ok)
      ensures gpI2c == null || !gReady ==> gGaugeOn == old(gGaugeOn)
    {
      success := false;
      if gReady && gpI2c != null {
        gpI2c.Lock();
        var awake := SendControl(CLEAR_HIBERNATE);
        if awake {
          gGaugeOn := true;
          success := SetSleep(isSlow);
        }
        gpI2c.Unlock();
      }
    }

    method DisableGauge() returns (success: bool)
      requires Usable()
      modifies this`gGaugeOn, gpI2c
      ensures Usable() && (gpI2c != null ==> gpI2c.lockDepth == old(gpI2c.lockDepth))
      ensures gpI2c == null || !gReady ==> !success
      ensures gpI2c != null && gReady && gpI2c.reliable ==> success
      ensures success ==> Succeeds(Call.DisableGauge, old(Snapshot()), Snapshot())
      ensures !success ==> gGaugeOn == old(gGaugeOn) && (gpI2c != null ==> gpI2c.dev.chip == old(gpI2c.dev.chip))
    {
      success := false;
      if gReady && gpI2c != null {
        gpI2c.Lock();
        success := SetHibernate();
        if success {
          gGaugeOn := false;
        }
        gpI2c.Unlock();
      }
    }

    // Writes OpConfig back with BIE clear and reports a battery.
    method InsertBattery(ghost c0: Chip, data: seq<byte>) returns (success: bool)
      requires Held() && Shaped(c0.mem) && |data| == 2 && BitSet(data[0], 32)
      requires ReadSpec(c0, gpI2c.dev.chip, gSealCode, 64, 0, 2, true, data)
      modifies gpI2c`dev, gpI2c`pointer, gpI2c`log
      ensures Held()
      ensures gpI2c.reliable && Writable(c0, gSealCode) ==> success
      ensures success ==>
        && gpI2c.dev.chip.hibernate == c0.hibernate
        && Reconfigured(c0, gpI2c.dev.chip, WithBit5(data[0], false), data[1])
        && Announced(old(gpI2c.log), gpI2c.log)
      ensures old(gpI2c.log) <= gpI2c.log
    {
      success := ChangeOpConfig(c0, data, ClearBit5(data[0]), data[1]);
      if success {
        success := SendControl(BAT_INSERT);
        assert success ==> gpI2c.log[|gpI2c.log| - 1] == Sent(0x000C, true);
      }
    }

    // Clears BIE, bit 5 of the high byte of OpConfig, and reports a battery if that was a change.
    method ClearBie() returns (success: bool)
      requires Held()
      modifies gpI2c`dev, gpI2c`pointer, gpI2c`log
      ensures Held()
      ensures gpI2c.reliable && Writable(old(gpI2c.dev.chip), gSealCode) ==> success
      ensures success ==> gpI2c.dev.chip.hibernate == old(gpI2c.dev.chip.hibernate)
      ensures success ==>
        var was := OpConfig(old(gpI2c.dev.chip.mem));
        Reconfigured(old(gpI2c.dev.chip), gpI2c.dev.chip, WithBit5(was[0], false), was[1])
      ensures old(gpI2c.log) <= gpI2c.log
      ensures success && BitSet(OpConfig(old(gpI2c.dev.chip.mem))[0], 32) ==> Announced(old(gpI2c.log), gpI2c.log)
    {
      ghost var c0 := gpI2c.dev.chip;
      var data;
      success, data := ReadExtendedData(64, 0, 2);
      if success {
        ReconfiguredByRead(c0, gpI2c.dev.chip, gSealCode, data);
        if BitSet(data[0], 32) {
          success := InsertBattery(c0, data);
        }
      }
    }

    method SetBie() returns (success: bool)
      requires Held()
      modifies gpI2c`dev, gpI2c`pointer, gpI2c`log
      ensures Held()
      ensures gpI2c.reliable && Writable(old(gpI2c.dev.chip), gSealCode) ==> success
      ensures success ==> gpI2c.dev.chip.hibernate == old(gpI2c.dev.chip.hibernate)
      ensures success ==>
        var was := OpConfig(old(gpI2c.dev.chip.mem));
        Reconfigured(old(gpI2c.dev.chip), gpI2c.dev.chip, WithBit5(was[0], true), was[1])
      ensures old(gpI2c.log) <= gpI2c.log
    {
      ghost var c0 := gpI2c.dev.chip;
      var data;
      success, data := ReadExtendedData(64, 0, 2);
      if success {
        ReconfiguredByRead(c0, gpI2c.dev.chip, gSealCode, data);
        if !BitSet(data[0], 32) {
          success := ChangeOpConfig(c0, data, SetBit5(data[0]), data[1]);
        }
      }
    }

    method DisableBatteryDetect() returns (success: bool)
      requires Usable()
      modifies gpI2c
      ensures Usable() && (gpI2c != null ==> gpI2c.lockDepth == old(gpI2c.lockDepth))
      ensures gpI2c != null && gReady ==> EndsAsleep(old(gpI2c.log), gpI2c.log, gGaugeOn)
      ensures gpI2c != null && gReady && !gGaugeOn && gpI2c.reliable ==> gpI2c.dev.chip.hibernate
      ensures gpI2c == null || !gReady ==> !success
      ensures gpI2c != null && gReady && gpI2c.reliable && Writable(old(gpI2c.dev.chip), gSealCode) ==> success
      ensures success ==> Succeeds(Call.DisableDetect, old(Snapshot()), Snapshot())
      ensures success && BitSet(OpConfig(old(gpI2c.dev.chip.mem))[0], 32) ==> Announced(old(gpI2c.log), gpI2c.log)
    {
      success := false;
      if gReady && gpI2c != null {
        gpI2c.Lock();
        success := ClearBie();
        ghost var announced := gpI2c.log;
        var done := ReturnToSleep();
        AnnouncedStays(old(gpI2c.log), announced, Sleeping(gGaugeOn, done));
        gpI2c.Unlock();
      }
    }

    method EnableBatteryDetect() returns (success: bool)
      requires Usable()
      modifies gpI2c
      ensures Usable() && (gpI2c != null ==> gpI2c.lockDepth == old(gpI2c.lockDepth))
      ensures gpI2c != null && gReady ==> EndsAsleep(old(gpI2c.log), gpI2c.log, gGaugeOn)
      ensures gpI2c != null && gReady && !gGaugeOn && gpI2c.reliable ==> gpI2c.dev.chip.hibernate
      ensures gpI2c == null || !gReady ==> !success
      ensures gpI2c != null && gReady && gpI2c.reliable && Writable(old(gpI2c.dev.chip), gSealCode) ==> success
      ensures success ==> Succeeds(Call.EnableDetect, old(Snapshot()), Snapshot())
    {
      success := false;
      if gReady && gpI2c != null {
        gpI2c.Lock();
        success := SetBie();
        var _ := ReturnToSleep();
        gpI2c.Unlock();
      }
    }

    // The common body of the single-register readings.
    method TakeReading(registerAddress: byte) returns (success: bool, data: word)
      requires Usable()
      modifies gpI2c
      ensures Usable() && (gpI2c != null ==> gpI2c.lockDepth == old(gpI2c.lockDepth))
      ensures gpI2c != null && gReady ==>
        EndsAsleep(old(gpI2c.log), gpI2c.log, gGaugeOn) || gpI2c.log == old(gpI2c.log) + [Sent(0x0012, false)]
      ensures gpI2c == null || !gReady ==> !success
      ensures gpI2c != null && gReady && gpI2c.reliable && registerAddress < BLOCK_CLASS ==> success
      ensures success ==> Succeeds(Reading, old(Snapshot()), Snapshot())
      ensures success ==>
        gpI2c.log == old(gpI2c.log) + Waking(gGaugeOn) + Reads(registerAddress, data) + Sleeping(gGaugeOn, true)
    {
      success, data := false, 0;
      if gReady && gpI2c != null {
        var awake := gGaugeOn;
        if !gGaugeOn {
          awake := MakeAdcReading();
        }
        if awake {
          assert gpI2c.log == old(gpI2c.log) + Waking(gGaugeOn);
          gpI2c.Lock();
          success, data := GetTwoBytes(registerAddress);
          var done := ReturnToSleep();
          if !done {
            success := false;
          }
          gpI2c.Unlock();
        }
      }
    }

    method GetTemperature() returns (success: bool, temperatureC: int)
      requires Usable()
      modifies gpI2c
      ensures Usable() && (gpI2c != null ==> gpI2c.lockDepth == old(gpI2c.lockDepth))
      ensures gpI2c != null && gReady ==>
        EndsAsleep(old(gpI2c.log), gpI2c.log, gGaugeOn) || gpI2c.log == old(gpI2c.log) + [Sent(0x0012, false)]
      ensures gpI2c == null || !gReady ==> !success
      ensures gpI2c != null && gReady && gpI2c.reliable ==> success
      ensures success ==> Succeeds(Reading, old(Snapshot()), Snapshot())
      ensures success ==> Measured(old(gpI2c.log), gpI2c.log, gGaugeOn, 0x02, data => temperatureC == data / 10 - 273)
    {
      var data;
      success, data := TakeReading(0x02);
      var kelvin10: int := data;
      temperatureC := kelvin10 / 10 - 273;
    }

    method GetVoltage() returns (success: bool, voltageMV: int)
      requires Usable()
      modifies gpI2c
      ensures Usable() && (gpI2c != null ==> gpI2c.lockDepth == old(gpI2c.lockDepth))
      ensures gpI2c != null && gReady ==>
        EndsAsleep(old(gpI2c.log), gpI2c.log, gGaugeOn) || gpI2c.log == old(gpI2c.log) + [Sent(0x0012, false)]
      ensures gpI2c == null || !gReady ==> !success
      ensures gpI2c != null && gReady && gpI2c.reliable ==> success
      ensures success ==> Succeeds(Reading, old(Snapshot()), Snapshot())
      ensures success ==> Measured(old(gpI2c.log), gpI2c.log, gGaugeOn, 0x04, data => voltageMV == data)
    {
      var data;
      success, data := TakeReading(0x04);
      voltageMV := data;
    }

    method GetRemainingCapacity() returns (success: bool, capacityMAh: int)
      requires Usable()
      modifies gpI2c
      ensures Usable() && (gpI2c != null ==> gpI2c.lockDepth == old(gpI2c.lockDepth))
      ensures gpI2c != null && gReady ==>
        EndsAsleep(old(gpI2c.log), gpI2c.log, gGaugeOn) || gpI2c.log == old(gpI2c.log) + [Sent(0x0012, false)]
      ensures gpI2c == null || !gReady ==> !success
      ensures gpI2c != null && gReady && gpI2c.reliable ==> success
      ensures success ==> Succeeds(Reading, old(Snapshot()), Snapshot())
      ensures success ==> Measured(old(gpI2c.log), gpI2c.log, gGaugeOn, 0x0c, data => capacityMAh == data)
    {
      var data;
      success, data := TakeReading(0x0c);
      capacityMAh := data;
    }

    // The register is read but its value never reaches the result, which is always zero.
    method GetCurrent() returns (success: bool, currentMA: int)
      requires Usable()
      modifies gpI2c
      ensures Usable() && (gpI2c != null ==> gpI2c.lockDepth == old(gpI2c.lockDepth))
      ensures gpI2c != null && gReady ==>
        EndsAsleep(old(gpI2c.log), gpI2c.log, gGaugeOn) || gpI2c.log == old(gpI2c.log) + [Sent(0x0012, false)]
      ensures gpI2c == null || !gReady ==> !success
      ensures gpI2c != null && gReady && gpI2c.reliable ==> success
      ensures success ==> Succeeds(Reading, old(Snapshot()), Snapshot())
      ensures success ==> Measured(old(gpI2c.log), gpI2c.log, gGaugeOn, 0x10, data => currentMA == 0)
    {
      var unused;
      success, unused := TakeReading(0x10);
      currentMA := 0;
    }

    // Sends SET_HIBERNATE before the register is read as well as after.
    method GetRemainingPercentage() returns (success: bool, batteryPercent: int)
      requires Usable()
      modifies gpI2c
      ensures Usable() && (gpI2c != null ==> gpI2c.lockDepth == old(gpI2c.lockDepth))
      ensures gpI2c != null && gReady ==>
        EndsAsleep(old(gpI2c.log), gpI2c.log, gGaugeOn) || gpI2c.log == old(gpI2c.log) + [Sent(0x0012, false)]
      ensures gpI2c == null || !gReady ==> !success
      ensures gpI2c != null && gReady && gpI2c.reliable ==> success
      ensures success ==> Succeeds(Reading, old(Snapshot()), Snapshot())
      ensures success ==> 0 <= batteryPercent < 0x1_0000 && exists slept: bool ::
        gpI2c.log == old(gpI2c.log) + Waking(gGaugeOn) + Sleeping(gGaugeOn, slept)
                     + Reads(0x1c, batteryPercent) + Sleeping(gGaugeOn, true)
    {
      success, batteryPercent := false, 0;
      if gReady && gpI2c != null {
        var awake := gGaugeOn;
        if !gGaugeOn {
          awake := MakeAdcReading();
        }
        if awake {
          assert gpI2c.log == old(gpI2c.log) + Waking(gGaugeOn);
          gpI2c.Lock();
          var slept := ReturnToSleep();
          success, batteryPercent := GetTwoBytes(0x1c);
          var done := ReturnToSleep();
          assert success && done ==>
            gpI2c.log == old(gpI2c.log) + Waking(gGaugeOn) + Sleeping(gGaugeOn, slept)
                         + Reads(0x1c, batteryPercent) + Sleeping(gGaugeOn, true);
          if !done {
            success := false;
          }
          gpI2c.Unlock();
        }
      }
    }

    method AdvancedGetConfig(subClassId: byte, offset: nat, length: nat) returns (success: bool, pData: seq<byte>)
      requires Usable()
      modifies gpI2c
      ensures Usable() && (gpI2c != null ==> gpI2c.lockDepth == old(gpI2c.lockDepth))
      ensures gpI2c != null && gReady ==> EndsAsleep(old(gpI2c.log), gpI2c.log, gGaugeOn)
      ensures gpI2c == null || !gReady ==> !success
      ensures gpI2c != null && gReady ==>
        GetConfigEffect(old(gpI2c.dev.chip), gpI2c.dev.chip, gSealCode, gGaugeOn, subClassId, offset, length,
                        success, pData)
      ensures success ==>
        |pData| == length && Succeeds(GetConfig(subClassId, offset, pData), old(Snapshot()), Snapshot())
      ensures gpI2c != null && gReady && gpI2c.reliable && Opens(old(gpI2c.dev.chip), gSealCode) ==>
        (success <==> offset % 32 + length <= 32 && (length == 0 ==> offset == 0 || offset % 32 != 0))
      ensures gpI2c != null && gReady && gpI2c.reliable ==> gpI2c.dev.chip.sealed == old(gpI2c.dev.chip.sealed)
    {
      success, pData := false, [];
      if gReady && gpI2c != null {
        gpI2c.Lock();
        success, pData := ReadExtendedData(subClassId, offset, length);
        ghost var mid, done := gpI2c.dev.chip, success;
        var slept := ReturnToSleep();
        if !slept {
          success := false;
        }
        assert ReadSpec(old(gpI2c.dev.chip), mid, gSealCode, subClassId, offset, length, done, pData);
        assert Hibernated(mid, gpI2c.dev.chip, gGaugeOn, slept);
        gpI2c.Unlock();
      }
    }

    method AdvancedSetConfig(subClassId: byte, offset: nat, pData: seq<byte>) returns (success: bool)
      requires Usable()
      modifies gpI2c
      ensures Usable() && (gpI2c != null ==> gpI2c.lockDepth == old(gpI2c.lockDepth))
      ensures gpI2c != null && gReady ==> EndsAsleep(old(gpI2c.log), gpI2c.log, gGaugeOn)
      ensures gpI2c == null || !gReady ==> !success
      ensures gpI2c != null && gReady ==>
        SetConfigEffect(old(gpI2c.dev.chip), gpI2c.dev.chip, gSealCode, gGaugeOn, subClassId, offset, pData, success)
      ensures success ==> Succeeds(SetConfig(subClassId, offset, pData), old(Snapshot()), Snapshot())
      ensures gpI2c != null ==> GuardedFrom(gpI2c.log, |old(gpI2c.log)|)
      ensures gpI2c != null && gReady && gpI2c.reliable && Writable(old(gpI2c.dev.chip), gSealCode) ==>
        (success <==> offset % 32 + |pData| <= 32 && (|pData| == 0 ==> offset == 0 || offset % 32 != 0))
      ensures gpI2c != null && gReady && gpI2c.reliable && old(gpI2c.dev.chip.sealed) && !success ==>
        gpI2c.dev.chip.sealed
    {
      success := false;
      if gReady && gpI2c != null {
        gpI2c.Lock();
        success := WriteExtendedData(subClassId, offset, pData);
        ghost var mid, done, before := gpI2c.dev.chip, success, gpI2c.log;
        var slept := ReturnToSleep();
        GuardedThenHarmless(before, gpI2c.log, |old(gpI2c.log)|);
        if !slept {
          success := false;
        }
        assert WriteSpec(old(gpI2c.dev.chip), mid, gSealCode, subClassId, offset, pData, done);
        assert Hibernated(mid, gpI2c.dev.chip, gGaugeOn, slept);
        gpI2c.Unlock();
      }
    }

    method AdvancedIsSealed() returns (sealed: bool)
      requires Usable()
      modifies gpI2c
      ensures Usable() && (gpI2c != null ==> gpI2c.lockDepth == old(gpI2c.lockDepth))
      ensures gpI2c != null && gReady ==> EndsAsleep(old(gpI2c.log), gpI2c.log, gGaugeOn)
      ensures gpI2c != null && gReady && !gGaugeOn && gpI2c.reliable ==> gpI2c.dev.chip.hibernate
      ensures sealed ==> gReady && gpI2c != null && gpI2c.dev.chip.sealed
      ensures gpI2c != null && gReady && gpI2c.reliable ==> sealed == gpI2c.dev.chip.sealed
      ensures gpI2c != null ==> gpI2c.dev.chip == old(gpI2c.dev.chip).(hibernate := gpI2c.dev.chip.hibernate)
    {
      sealed := false;
      if gReady && gpI2c != null {
        gpI2c.Lock();
        sealed := IsSealed();
        var _ := ReturnToSleep();
        gpI2c.Unlock();
      }
    }

    method AdvancedSeal() returns (success: bool)
      requires Usable()
      modifies gpI2c
      ensures Usable() && (gpI2c != null ==> gpI2c.lockDepth == old(gpI2c.lockDepth))
      ensures gpI2c != null && gReady ==> EndsAsleep(old(gpI2c.log), gpI2c.log, gGaugeOn)
      ensures gpI2c == null || !gReady ==> !success
      ensures gpI2c != null && gReady && gpI2c.reliable ==> success
      ensures success ==> Succeeds(Call.Seal, old(Snapshot()), Snapshot())
    {
      success := false;
      if gReady && gpI2c != null {
        gpI2c.Lock();
        success := SealChip();
        var done := ReturnToSleep();
        if !done {
          success := false;
        }
        gpI2c.Unlock();
      }
    }

    // Clears the reseal bit so that the next reset does not seal the chip again.
    method ClearUpdateStatus() returns (success: bool)
      requires Held() && !gpI2c.dev.chip.sealed
      modifies gpI2c`dev, gpI2c`pointer, gpI2c`log
      ensures Held()
      ensures gpI2c.reliable && Prompt(old(gpI2c.dev.chip)) ==> success
      ensures success ==> !gpI2c.dev.chip.sealed && !Reseal(gpI2c.dev.chip.mem)
      ensures success ==> gpI2c.dev.chip.mem == ClearReseal(old(gpI2c.dev.chip.mem))
      ensures old(gpI2c.log) <= gpI2c.log
    {
      ghost var m := gpI2c.dev.chip.mem;
      UpdateStatusByte(m);
      var updateStatus;
      success, updateStatus := ReadExtendedData(82, 2, 1);
      if success {
        if BitSet(updateStatus[0], 128) {
          success := WriteExtendedData(82, 2, [updateStatus[0] - 128]);
        }
      }
    }

    // Unseals the chip for good.
    method ClearSeal(sealCode: word) returns (success: bool)
      requires Held()
      modifies gpI2c`dev, gpI2c`pointer, gpI2c`log
      ensures Held()
      ensures gpI2c.reliable && Unsealable(old(gpI2c.dev.chip), sealCode) ==> success
      ensures success ==> !gpI2c.dev.chip.sealed && !Reseal(gpI2c.dev.chip.mem)
      ensures success && sealCode != RESET ==> gpI2c.dev.chip.mem == ClearReseal(old(gpI2c.dev.chip.mem))
      ensures old(gpI2c.log) <= gpI2c.log
    {
      success := UnsealChip(sealCode);
      if success {
        UnsealingKeepsMemory(old(gpI2c.dev.chip), gpI2c.dev.chip, sealCode);
        success := ClearUpdateStatus();
      }
    }

    method AdvancedUnseal(sealCode: word) returns (success: bool)
      requires Usable()
      modifies gpI2c
      ensures Usable() && (gpI2c != null ==> gpI2c.lockDepth == old(gpI2c.lockDepth))
      ensures gpI2c != null && gReady ==> EndsAsleep(old(gpI2c.log), gpI2c.log, gGaugeOn)
      ensures gpI2c == null || !gReady ==> !success
      ensures gpI2c != null && gReady && gpI2c.reliable && Unsealable(old(gpI2c.dev.chip), sealCode) ==> success
      ensures success ==> Succeeds(Call.Unseal(sealCode), old(Snapshot()), Snapshot())
    {
      success := false;
      if gReady && gpI2c != null {
        gpI2c.Lock();
        success := ClearSeal(sealCode);
        var done := ReturnToSleep();
        if !done {
          success := false;
        }
        gpI2c.Unlock();
      }
    }

    // Unseals if it seems necessary, sends RESET and seals again.
    method ResetHeld() returns (success: bool, wasSealed: bool)
      requires Held()
      modifies gpI2c`dev, gpI2c`pointer, gpI2c`log
      ensures Held()
      ensures SealQuery(gpI2c.log, |old(gpI2c.log)|, wasSealed) && old(gpI2c.log) <= gpI2c.log
      ensures wasSealed ==> old(gpI2c.dev.chip.sealed)
      ensures gpI2c.reliable ==> wasSealed == old(gpI2c.dev.chip.sealed)
      ensures gpI2c.reliable && Opens(old(gpI2c.dev.chip), gSealCode) ==> success
      ensures gpI2c.reliable ==> gpI2c.dev.chip.sealed == old(gpI2c.dev.chip.sealed)
      ensures wasSealed && OpenQuery(gpI2c.log, |old(gpI2c.log)| + 5) ==> ToldToSeal(gpI2c.log, |old(gpI2c.log)|)
      ensures success ==>
        gpI2c.dev.chip.sealed == old(gpI2c.dev.chip.sealed) && gpI2c.dev.chip.rom == old(gpI2c.dev.chip.rom)
      ensures success ==> gpI2c.dev.chip.hibernate == old(gpI2c.dev.chip.hibernate)
      ensures success && !old(gpI2c.dev.chip.sealed) ==> gpI2c.dev.chip.mem == gpI2c.dev.chip.rom
      ensures success && old(gpI2c.dev.chip.sealed) ==>
        gpI2c.dev.chip.mem == if wasSealed then SetReseal(gpI2c.dev.chip.rom) else old(gpI2c.dev.chip.mem)
    {
      success := false;
      var open;
      wasSealed, open := OpenUp();
      if open {
        success := SendControl(RESET);
      }
      if open && wasSealed {
        var resealed := SealChip();
        if !resealed {
          success := false;
        }
      }
    }

    // `wasSealed` is what the seal query showed; an answer that gets lost shows an unsealed chip.
    method AdvancedReset() returns (success: bool, ghost wasSealed: bool)
      requires Usable()
      modifies gpI2c
      ensures Usable() && (gpI2c != null ==> gpI2c.lockDepth == old(gpI2c.lockDepth))
      ensures gpI2c != null && gReady ==> EndsAsleep(old(gpI2c.log), gpI2c.log, gGaugeOn)
      ensures gpI2c == null || !gReady ==> !success
      ensures success ==> Succeeds(HardReset, old(Snapshot()), Snapshot())
      ensures success && !old(gpI2c.dev.chip.sealed) ==> gpI2c.dev.chip.mem == gpI2c.dev.chip.rom
      ensures success && old(gpI2c.dev.chip.sealed) ==>
        gpI2c.dev.chip.mem == if wasSealed then SetReseal(gpI2c.dev.chip.rom) else old(gpI2c.dev.chip.mem)
      ensures gpI2c != null && gReady ==> SealQuery(gpI2c.log, |old(gpI2c.log)|, wasSealed)
      ensures gpI2c != null && gReady && gpI2c.reliable ==> wasSealed == old(gpI2c.dev.chip.sealed)
      ensures gpI2c != null && gReady && gpI2c.reliable && Opens(old(gpI2c.dev.chip), gSealCode) ==> success
      ensures gpI2c != null && gReady && gpI2c.reliable ==> gpI2c.dev.chip.sealed == old(gpI2c.dev.chip.sealed)
    {
      success, wasSealed := false, false;
      if gReady && gpI2c != null {
        gpI2c.Lock();
        success, wasSealed := ResetHeld();
        var done := ReturnToSleep();
        if !done {
          success := false;
        }
        gpI2c.Unlock();
      }
    }
  }
}
