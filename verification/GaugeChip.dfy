/**
 The BQ27441 as the driver sees it: an I2C register file in front of the chip's
 configuration memory.  A 32-byte window, selected by sub-class and block number, is the
 only way in; it is committed when the matching checksum is written in CONFIGUPDATE mode.
 */
module GaugeChip {
  import opened Bytes

  const BLOCK := 32
  const CLASS_SIZE := 8192

  const FLAGS := 0x06
  const BLOCK_CLASS := 0x3e
  const BLOCK_OFFSET := 0x3f
  const BLOCK_DATA := 0x40
  const BLOCK_CHECKSUM := 0x60
  const BLOCK_CONTROL := 0x61

  const CONTROL_STATUS := 0x0000
  const FW_VERSION := 0x0002
  const BAT_INSERT := 0x000C
  const SET_HIBERNATE := 0x0011
  const CLEAR_HIBERNATE := 0x0012
  const SET_CFGUPDATE := 0x0013
  const SEALED := 0x0020
  const RESET := 0x0041
  const SOFT_RESET := 0x0042

  /** One flat byte array per sub-class; a one-byte block number reaches 8192 bytes of each. */
  type Memory = seq<seq<byte>>

  predicate Shaped(m: Memory)
  {
    |m| == 256 && forall c :: 0 <= c < 256 ==> |m[c]| == CLASS_SIZE
  }

  /** What outlives a transfer. */
  datatype Chip = Chip(
    mem: Memory, rom: Memory,
    key: word,          // the word that unseals when sent twice
    firmware: word,     // the answer to FW_VERSION
    latency: nat,       // waits before the CONFIGUPDATE flag follows a request
    cfgWanted: bool, cfgUpdate: bool, settle: nat,
    sealed: bool,
    hibernate: bool)    // the last hibernate command delivered was SET_HIBERNATE

  /** The register file: what the next transfer depends on. */
  datatype Regs = Regs(
    low: byte, word: word, keyHalf: bool,
    blockControl: byte, cls: byte, blk: byte, window: seq<byte>)

  datatype Device = Device(chip: Chip, regs: Regs)
  {
    predicate Valid()
    {
      Shaped(chip.mem) && Shaped(chip.rom) && |regs.window| == BLOCK
    }
  }

  // ---------------------------------------------------------------- flat memory

  function MemRead(m: Memory, cls: byte, off: nat, n: nat): seq<byte>
    requires Shaped(m) && off + n <= CLASS_SIZE
  {
    m[cls][off..off + n]
  }

  function MemWrite(m: Memory, cls: byte, off: nat, data: seq<byte>): (r: Memory)
    requires Shaped(m) && off + |data| <= CLASS_SIZE
    ensures Shaped(r)
  {
    m[cls := Splice(m[cls], off, data)]
  }

  /** Update Status, sub-class 82 offset 2: with bit 7 set the chip reseals itself on reset. */
  predicate Reseal(m: Memory)
    requires Shaped(m)
  {
    m[82][2] >= 128
  }

  function SetReseal(m: Memory): (r: Memory)
    requires Shaped(m)
    ensures Shaped(r) && Reseal(r)
  {
    if Reseal(m) then m else m[82 := m[82][2 := m[82][2] + 128]]
  }

  // ---------------------------------------------------------------- control words

  function RequestUpdate(c: Chip, wanted: bool): Chip
  {
    c.(cfgWanted := wanted, settle := c.latency, cfgUpdate := if c.latency == 0 then wanted else c.cfgUpdate)
  }

  /** 100 ms of the polling loops: the flag follows the request when its latency has passed. */
  function Tick(c: Chip): Chip
  {
    if c.cfgUpdate == c.cfgWanted then c
    else if c.settle <= 1 then c.(cfgUpdate := c.cfgWanted, settle := 0)
    else c.(settle := c.settle - 1)
  }

  predicate IsSubCommand(w: word)
  {
    w in {CONTROL_STATUS, FW_VERSION, BAT_INSERT, SET_HIBERNATE, CLEAR_HIBERNATE, SET_CFGUPDATE, SEALED, RESET,
          SOFT_RESET}
  }

  /** The effect of a control sub-command.  A sealed chip obeys only status and hibernate words. */
  function Exec(c: Chip, w: word): (r: Chip)
    requires Shaped(c.mem) && Shaped(c.rom)
    ensures Shaped(r.mem) && Shaped(r.rom)
  {
    if w == SET_HIBERNATE then c.(hibernate := true)
    else if w == CLEAR_HIBERNATE then c.(hibernate := false)
    else if c.sealed then c
    else if w == SET_CFGUPDATE then RequestUpdate(c, true)
    else if w == SOFT_RESET then RequestUpdate(c, false).(sealed := Reseal(c.mem))
    else if w == SEALED then c.(sealed := true, mem := SetReseal(c.mem))
    else if w == RESET then c.(mem := c.rom)
    else c
  }

  function Control(d: Device, w: word): (r: Device)
    requires d.Valid()
    ensures r.Valid()
  {
    var isKey := w == d.chip.key && !IsSubCommand(w);
    var c := if isKey && d.regs.keyHalf then d.chip.(sealed := false) else Exec(d.chip, w);
    Device(c, d.regs.(word := w, keyHalf := isKey))
  }

  // ---------------------------------------------------------------- the register file

  function Sum(s: seq<byte>): nat
  {
    if s == [] then 0 else Sum(s[..|s| - 1]) + s[|s| - 1]
  }

  function Checksum(s: seq<byte>): byte
  {
    255 - Sum(s) % 256
  }

  function Block(m: Memory, cls: byte, blk: byte): (w: seq<byte>)
    requires Shaped(m)
    ensures |w| == BLOCK
  {
    MemRead(m, cls, BLOCK * blk, BLOCK)
  }

  /** One byte written to one register. */
  function Poke(d: Device, reg: nat, b: byte): (r: Device)
    requires d.Valid()
    ensures r.Valid()
  {
    if reg == 0 then d.(regs := d.regs.(low := b))
    else if reg == 1 then Control(d, d.regs.low + 256 * b)
    else if reg == BLOCK_CONTROL then d.(regs := d.regs.(blockControl := b))
    else if reg == BLOCK_CLASS then d.(regs := d.regs.(cls := b))
    else if reg == BLOCK_OFFSET then
      if d.regs.blockControl == 0
      then d.(regs := d.regs.(blk := b, window := Block(d.chip.mem, d.regs.cls, b)))
      else d
    else if BLOCK_DATA <= reg < BLOCK_DATA + BLOCK then
      d.(regs := d.regs.(window := d.regs.window[reg - BLOCK_DATA := b]))
    else if reg == BLOCK_CHECKSUM && b == Checksum(d.regs.window) && d.chip.cfgUpdate then
      d.(chip := d.chip.(mem := MemWrite(d.chip.mem, d.regs.cls, BLOCK * d.regs.blk, d.regs.window)))
    else d
  }

  /** A burst: the register address increments with every byte. */
  function PokeAll(d: Device, reg: nat, bytes: seq<byte>): (r: Device)
    requires d.Valid()
    ensures r.Valid()
    decreases |bytes|
  {
    if bytes == [] then d else PokeAll(Poke(d, reg, bytes[0]), reg + 1, bytes[1..])
  }

  /** A sealed chip does not acknowledge the block-data registers. */
  predicate Acks(d: Device, reg: byte)
  {
    d.chip.sealed ==> !(BLOCK_CLASS <= reg <= BLOCK_CONTROL)
  }

  /** Whether register `reg` may read as `b`; measurement registers read as anything. */
  predicate Answers(d: Device, reg: nat, b: byte)
    requires d.Valid()
  {
    && (reg == 1 && d.regs.word == CONTROL_STATUS ==> (BitSet(b, 32) <==> d.chip.sealed))
    && (reg == 0 && d.regs.word == FW_VERSION ==> b == d.chip.firmware % 256)
    && (reg == 1 && d.regs.word == FW_VERSION ==> b == d.chip.firmware / 256)
    && (reg == FLAGS ==> (BitSet(b, 16) <==> d.chip.cfgUpdate))
    && (BLOCK_DATA <= reg < BLOCK_DATA + BLOCK ==> b == d.regs.window[reg - BLOCK_DATA])
    && (reg == BLOCK_CHECKSUM ==> b == Checksum(d.regs.window))
  }

  function Answer(d: Device, reg: nat): (b: byte)
    requires d.Valid()
    ensures Answers(d, reg, b)
  {
    if BLOCK_DATA <= reg < BLOCK_DATA + BLOCK then d.regs.window[reg - BLOCK_DATA]
    else if reg == BLOCK_CHECKSUM then Checksum(d.regs.window)
    else if reg == 0 && d.regs.word == FW_VERSION then d.chip.firmware % 256
    else if reg == 1 && d.regs.word == FW_VERSION then d.chip.firmware / 256
    else if reg == 1 && d.chip.sealed then 32
    else if reg == FLAGS && d.chip.cfgUpdate then 16
    else 0
  }

  function AnswerAll(d: Device, reg: nat, n: nat): (s: seq<byte>)
    requires d.Valid()
    ensures |s| == n && forall i :: 0 <= i < n ==> Answers(d, reg + i, s[i])
  {
    if n == 0 then [] else AnswerAll(d, reg, n - 1) + [Answer(d, reg + n - 1)]
  }

  // ---------------------------------------------------------------- window arithmetic

  /** The driver's test that a range stays in one block, and what it is worth. */
  lemma GuardMeansOneBlock(offset: nat, length: nat)
    ensures length >= 1 ==> (offset / 32 == CDiv(offset + length - 1, 32) <==> offset % 32 + length <= 32)
    ensures length == 0 ==> offset % 32 + length <= 32
  {
  }

  /** The one-byte block number and the offset in the block address `offset` modulo 8192. */
  lemma BlockAddress(offset: nat)
    ensures BLOCK * (offset / 32 % 256) + offset % 32 == offset % CLASS_SIZE
  {
  }

  /** A burst into the block-data area lays the bytes over the window and touches nothing else. */
  lemma {:induction false} BurstFillsWindow(d: Device, o: nat, data: seq<byte>)
    requires d.Valid() && o + |data| <= BLOCK
    ensures PokeAll(d, BLOCK_DATA + o, data) == d.(regs := d.regs.(window := Splice(d.regs.window, o, data)))
    decreases |data|
  {
    if data == [] {
      assert Splice(d.regs.window, o, data) == d.regs.window;
    } else {
      var d1 := Poke(d, BLOCK_DATA + o, data[0]);
      BurstFillsWindow(d1, o + 1, data[1..]);
      assert Splice(d1.regs.window, o + 1, data[1..]) == Splice(d.regs.window, o, data);
    }
  }

  /** Replacing a block by its overlaid copy is a plain write to the flat array. */
  lemma CommitIsFlatWrite(m: Memory, cls: byte, blk: byte, o: nat, data: seq<byte>)
    requires Shaped(m) && o + |data| <= BLOCK
    ensures MemWrite(m, cls, BLOCK * blk, Splice(Block(m, cls, blk), o, data))
         == MemWrite(m, cls, BLOCK * blk + o, data)
  {
    assert Splice(m[cls], BLOCK * blk, Splice(Block(m, cls, blk), o, data)) == Splice(m[cls], BLOCK * blk + o, data);
  }

  lemma SumAppend(a: seq<byte>, b: byte)
    ensures Sum(a + [b]) == Sum(a) + b
  {
  }

  /** The checksum is what makes the sum of the bytes 0xff; and the sum counts every byte once. */
  lemma ChecksumIs(a: seq<byte>, b: byte)
    ensures (Checksum(a) + Sum(a)) % 256 == 0xff
    ensures Sum([]) == 0 && Sum(a + [b]) == Sum(a) + b
  {
    SumAppend(a, b);
  }

  lemma PokePair(d: Device, reg: nat, a: byte, b: byte)
    requires d.Valid()
    ensures PokeAll(d, reg, [a, b]) == Poke(Poke(d, reg, a), reg + 1, b)
  {
    var d1 := Poke(d, reg, a);
    assert [a, b][1..] == [b];
    assert PokeAll(d1, reg + 1, [b]) == PokeAll(Poke(d1, reg + 1, b), reg + 2, [b][1..]);
  }

  // ---------------------------------------------------------------- the bus

  datatype Transfer =
    | Wrote(data: seq<byte>, ok: bool)
    | Fetched(reg: nat, data: seq<byte>, ok: bool)

  /** A transfer that tries to change the window or to commit it. */
  predicate IsBlockWrite(t: Transfer)
  {
    t.Wrote? && |t.data| > 1 && BLOCK_DATA <= t.data[0] <= BLOCK_CHECKSUM
  }

  /** A completed read of the Flags register, and what it showed. */
  predicate SawUpdate(t: Transfer, flag: bool)
  {
    t.Fetched? && t.ok && t.reg == FLAGS && |t.data| == 2 && BitSet(t.data[0], 16) == flag
  }

  /** From entry `n` on the log holds no attempt to write block data. */
  predicate HarmlessFrom(log: seq<Transfer>, n: nat)
  {
    forall i :: n <= i < |log| ==> !IsBlockWrite(log[i])
  }

  /** From entry `n` on, every attempt to write block data follows sight of CONFIGUPDATE set. */
  ghost predicate GuardedFrom(log: seq<Transfer>, n: nat)
  {
    forall i :: n <= i < |log| && IsBlockWrite(log[i]) ==> exists j :: n <= j < i && SawUpdate(log[j], true)
  }

  /** The I2C peripheral with the chip behind it.  A transfer that fails has no effect. */
  class I2cBus {
    const reliable: bool   // no transfer the chip would acknowledge ever fails
    var dev: Device
    var pointer: nat
    var lockDepth: nat
    var log: seq<Transfer>

    ghost predicate Valid()
      reads this
    {
      dev.Valid()
    }

    constructor (dev: Device, reliable: bool)
      requires dev.Valid()
      ensures Valid() && this.dev == dev && this.reliable == reliable && lockDepth == 0 && log == []
    {
      this.dev, this.reliable, pointer, lockDepth, log := dev, reliable, 0, 0, [];
    }

    method Lock()
      modifies this`lockDepth
      ensures lockDepth == old(lockDepth) + 1
    {
      lockDepth := lockDepth + 1;
    }

    method Unlock()
      requires lockDepth > 0
      modifies this`lockDepth
      ensures lockDepth == old(lockDepth) - 1
    {
      lockDepth := lockDepth - 1;
    }

    method Write(data: seq<byte>) returns (ok: bool)
      requires Valid() && lockDepth > 0 && |data| >= 1
      modifies this`dev, this`pointer, this`log
      ensures Valid() && log == old(log) + [Wrote(data, ok)]
      ensures ok ==>
        Acks(old(dev), data[0]) && dev == PokeAll(old(dev), data[0], data[1..]) && pointer == data[0] + |data| - 1
      ensures !ok ==> dev == old(dev) && pointer == old(pointer)
      ensures reliable && Acks(old(dev), data[0]) ==> ok
    {
      ok := *;
      ok := Acks(dev, data[0]) && (ok || reliable);
      if ok {
        dev := PokeAll(dev, data[0], data[1..]);
        pointer := data[0] + |data| - 1;
      }
      log := log + [Wrote(data, ok)];
    }

    method Read(n: nat) returns (ok: bool, data: seq<byte>)
      requires Valid() && lockDepth > 0
      modifies this`pointer, this`log
      ensures |data| == n && log == old(log) + [Fetched(old(pointer), data, ok)]
      ensures ok ==> forall i :: 0 <= i < n ==> Answers(dev, old(pointer) + i, data[i])
      ensures reliable ==> ok
    {
      ok := *;
      ok := ok || reliable;
      data := *;
      if |data| != n || exists i :: 0 <= i < n && !Answers(dev, pointer + i, data[i]) {
        data := AnswerAll(dev, pointer, n);
      }
      log := log + [Fetched(pointer, data, ok)];
      pointer := pointer + n;
    }

    method Wait()
      requires Valid()
      modifies this`dev
      ensures Valid() && dev == old(dev).(chip := Tick(old(dev).chip))
    {
      dev := dev.(chip := Tick(dev.chip));
    }
  }
}
