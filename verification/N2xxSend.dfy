/** The UDP send path of the N2xx driver: hex-encoded chunks of which the modem may take a part. */
module N2xxSend {
  import opened Bytes
  import opened HexCodec

  const MAX_WRITE_SIZE := 512
  const NSAPI_ERROR_NO_MEMORY := -3006
  const NSAPI_ERROR_DEVICE_ERROR := -3012

  /** One NSOSTF command: the text offered, the bytes it stands for, and how many of them were accepted. */
  datatype Datagram = Datagram(text: seq<byte>, payload: seq<byte>, taken: nat)

  predicate WellFormed(d: Datagram)
  {
    1 <= d.taken <= |d.payload| <= MAX_WRITE_SIZE
  }

  predicate AllWellFormed(log: seq<Datagram>)
  {
    forall i :: 0 <= i < |log| ==> WellFormed(log[i])
  }

  /** From entry `n` on, what was offered is the text of the payload, which decodes to it. */
  predicate Encoded(log: seq<Datagram>, n: nat)
  {
    forall k :: n <= k < |log| ==> log[k].text == HexOf(log[k].payload)
  }

  /** What the far end gets: the accepted prefix of every decoded payload, in order. */
  function Received(log: seq<Datagram>): seq<byte>
    requires AllWellFormed(log)
  {
    if log == [] then []
    else
      var d := log[|log| - 1];
      assert WellFormed(d);
      Received(log[..|log| - 1]) + d.payload[..d.taken]
  }

  /** One more command went out, with `chunk` as payload. */
  predicate OneMore(before: seq<Datagram>, log: seq<Datagram>, chunk: seq<byte>)
  {
    && |log| == |before| + 1 && before <= log
    && log[|before|].payload == chunk && log[|before|].text == HexOf(chunk)
  }

  /** A modem that, when it answers, takes at least one byte of the chunk. */
  class Modem {
    const answers: bool   // no command and no answer is lost
    var log: seq<Datagram>

    ghost predicate Valid()
      reads this
    {
      AllWellFormed(log)
    }

    constructor (answers: bool)
      ensures Valid() && log == [] && this.answers == answers
    {
      this.answers, log := answers, [];
    }

    // Sends one command and reads the count back; the answer may get lost.
    method SendCommand(text: seq<byte>, size: nat) returns (sent: int)
      requires Valid() && 1 <= size <= MAX_WRITE_SIZE && |text| == 2 * size && AllHex(text)
      modifies this
      ensures Valid() && sent <= size && sent != 0
      ensures log == old(log) ||
        (|log| == |old(log)| + 1 && old(log) <= log
         && log[|old(log)|].text == text && log[|old(log)|].payload == Decoded(text))
      ensures sent > 0 ==> log == old(log) + [Datagram(text, Decoded(text), sent)]
      ensures answers ==> sent > 0
      ensures sent < 0 ==> sent == NSAPI_ERROR_DEVICE_ERROR
    {
      sent := NSAPI_ERROR_DEVICE_ERROR;
      var heard := *;
      if heard || answers {
        var k: nat := *;
        if !(1 <= k <= size) {
          k := size;
        }
        log := log + [Datagram(text, Decoded(text), k)];
        var answered := *;
        if answered || answers {
          sent := k;
        }
      }
    }
  }

  /** Everything sent so far is a piece of the caller's data, from the start and without gaps. */
  ghost predicate Reassembles(before: seq<Datagram>, log: seq<Datagram>, data: seq<byte>)
    requires AllWellFormed(log)
  {
    before <= log && Received(log[|before|..]) <= data
  }

  lemma ReceivedAppend(log: seq<Datagram>, d: Datagram)
    requires WellFormed(d) && AllWellFormed(log)
    ensures Received(log + [d]) == Received(log) + d.payload[..d.taken]
  {
  }

  lemma PrefixGrows(data: seq<byte>, from: nat, chunk: seq<byte>, k: nat)
    requires from + |chunk| <= |data| && chunk == data[from..from + |chunk|] && k <= |chunk|
    ensures data[..from] + chunk[..k] == data[..from + k]
  {
  }

  /** A command with the next chunk as payload extends what was received by what it took. */
  lemma {:induction false} ChunkReceived(before: seq<Datagram>, d: Datagram, data: seq<byte>, from: nat,
                                         chunk: seq<byte>)
    requires AllWellFormed(before) && WellFormed(d) && from + |chunk| <= |data| && chunk == data[from..from + |chunk|]
    requires d.payload == chunk && Received(before) == data[..from]
    ensures AllWellFormed(before + [d]) && d.taken <= |chunk|
    ensures Received(before + [d]) == data[..from + d.taken]
  {
    ReceivedAppend(before, d);
    PrefixGrows(data, from, chunk, d.taken);
  }

  /** How many bytes were accepted. */
  function TakenSum(sent: seq<Datagram>): nat
  {
    if sent == [] then 0 else TakenSum(sent[..|sent| - 1]) + sent[|sent| - 1].taken
  }

  /** The 32-bit count of the send loop after these commands, each reported as it was taken. */
  function LeftAfter(size: uint32, sent: seq<Datagram>): uint32
  {
    if sent == [] then size
    else
      var last := |sent| - 1;
      Sub32(LeftAfter(size, sent[..last]), sent[last].taken)
  }

  /** Every turn of the send loop leaves less to send than the turn before. */
  predicate Progresses(size: uint32, sent: seq<Datagram>)
  {
    sent == [] ||
    var last := |sent| - 1;
    Progresses(size, sent[..last]) && LeftAfter(size, sent) < LeftAfter(size, sent[..last])
  }

  /** The send loop moves on in every turn exactly when each report is at least one byte and the reports
      add up to no more than was asked for; its 32-bit count is then what is left. */
  lemma {:induction false} ProgressCondition(size: uint32, sent: seq<Datagram>)
    requires forall i :: 0 <= i < |sent| ==> sent[i].taken < 0x8000_0000
    ensures Progresses(size, sent) <==>
      (forall i :: 0 <= i < |sent| ==> 1 <= sent[i].taken) && TakenSum(sent) <= size
    ensures TakenSum(sent) <= size ==> LeftAfter(size, sent) == size - TakenSum(sent)
  {
    if sent != [] {
      var last := |sent| - 1;
      var before := sent[..last];
      ProgressCondition(size, before);
      assert forall i :: 0 <= i < last ==> before[i] == sent[i];
    }
  }

  /** Every command offered as much of `size` bytes as was left to be accepted, up to 512 bytes. */
  predicate FullChunks(sent: seq<Datagram>, size: nat)
  {
    sent == [] ||
    var last := |sent| - 1;
    FullChunks(sent[..last], size) && |sent[last].payload| == Min(512, size - TakenSum(sent[..last]))
  }

  /** The commands of a call so far: full chunks, `k` bytes accepted, the count exact and smaller every time. */
  predicate UpTo(sent: seq<Datagram>, size: uint32, k: nat)
  {
    && (forall i :: 0 <= i < |sent| ==> 1 <= sent[i].taken <= MAX_WRITE_SIZE)
    && FullChunks(sent, size) && TakenSum(sent) == k <= size && LeftAfter(size, sent) == size - k
  }

  lemma {:induction false} CountedChunk(sent: seq<Datagram>, d: Datagram, size: uint32, from: nat)
    requires UpTo(sent, size, from) && |d.payload| == Min(512, size - from)
    requires 1 <= d.taken <= Min(MAX_WRITE_SIZE, size - from)
    ensures UpTo(sent + [d], size, from + d.taken)
  {
    var after := sent + [d];
    assert after[..|sent|] == sent;
    ProgressCondition(size, after);
  }

  /** And what was received are the first `k` bytes of the data. */
  predicate Accounted(sent: seq<Datagram>, data: seq<byte>, k: nat)
  {
    && |data| < 0x1_0000_0000 && k <= |data| && AllWellFormed(sent)
    && Received(sent) == data[..k] && UpTo(sent, |data|, k)
  }

  lemma {:induction false} OneMoreChunk(sent: seq<Datagram>, d: Datagram, data: seq<byte>, from: nat, blk: nat)
    requires Accounted(sent, data, from) && WellFormed(d)
    requires from < |data| && blk == Min(MAX_WRITE_SIZE, |data| - from) && d.payload == data[from..from + blk]
    ensures d.taken <= blk && Accounted(sent + [d], data, from + d.taken)
  {
    ChunkReceived(sent, d, data, from, data[from..from + blk]);
    CountedChunk(sent, d, |data|, from);
  }

  /** How much of the command that may have been added to the log was accepted. */
  function Accepted(before: seq<Datagram>, log: seq<Datagram>): nat
  {
    if |log| > |before| then log[|before|].taken else 0
  }

  /** One more command on the log, with the next chunk as payload. */
  lemma {:induction false} NextTurn(log: seq<Datagram>, log': seq<Datagram>, n: nat, data: seq<byte>,
                                    from: nat, blk: nat)
    requires n <= |log| && Accounted(log[n..], data, from) && AllWellFormed(log')
    requires from < |data| && blk == Min(MAX_WRITE_SIZE, |data| - from) && OneMore(log, log', data[from..from + blk])
    ensures Accepted(log, log') <= blk && Accounted(log'[n..], data, from + Accepted(log, log'))
  {
    var d := log'[|log|];
    assert WellFormed(d) && log'[n..] == log[n..] + [d];
    OneMoreChunk(log[n..], d, data, from, blk);
  }

  class UbloxATCellularInterfaceN2xx {
    const at: Modem
    const roomy: bool   // the working buffer is always to be had

    constructor (at: Modem, roomy: bool)
      ensures this.at == at && this.roomy == roomy
    {
      this.at, this.roomy := at, roomy;
    }

    // The text of the chunk of `buf` at `from`, made in the working buffer.
    method HexText(buf: array<byte>, from: nat, size: nat) returns (text: seq<byte>)
      requires from + size <= buf.Length
      ensures text == HexOf(buf[from..from + size]) && AllHex(text) && Decoded(text) == buf[from..from + size]
    {
      var str := new byte[size * 2 + 1];
      var chunk := new byte[size](i requires 0 <= i < size && from + size <= buf.Length reads buf => buf[from + i]);
      BinToHex(chunk, size, str);
      assert chunk[..size] == buf[from..from + size];
      RoundTrip(chunk[..size]);
      text := str[..2 * size];
    }

    // Sends the chunk of `buf` at `from`; the working buffer may not be there to be had.
    method SendTo(buf: array<byte>, from: nat, size: nat) returns (sent: int)
      requires at.Valid() && 1 <= size <= MAX_WRITE_SIZE && from + size <= buf.Length
      modifies at
      ensures at.Valid() && sent <= size && sent != 0
      ensures at.log == old(at.log) || OneMore(old(at.log), at.log, buf[from..from + size])
      ensures sent > 0 ==> |at.log| == |old(at.log)| + 1 && at.log[|old(at.log)|].taken == sent
      ensures at.answers && roomy ==> sent > 0
      ensures sent < 0 ==> sent in {NSAPI_ERROR_NO_MEMORY, NSAPI_ERROR_DEVICE_ERROR}
    {
      var granted := *;
      if !granted && !roomy {
        return NSAPI_ERROR_NO_MEMORY;
      }
      var text := HexText(buf, from, size);
      sent := at.SendCommand(text, size);
    }

    // One turn of the send loop: the chunk at `from` follows what was received since entry `n0`.
    method SendNext(data: array<byte>, size: uint32, from: nat, blk: nat, ghost n0: nat) returns (sent: int)
      requires at.Valid() && from < size <= data.Length && blk == Min(MAX_WRITE_SIZE, size - from) && n0 <= |at.log|
      requires Accounted(at.log[n0..], data[..size], from)
      modifies at
      ensures at.Valid() && old(at.log) <= at.log && sent <= blk && sent != 0
      ensures Accounted(at.log[n0..], data[..size], from + Accepted(old(at.log), at.log))
      ensures sent > 0 ==> Accepted(old(at.log), at.log) == sent
      ensures Encoded(old(at.log), n0) ==> Encoded(at.log, n0)
      ensures at.answers && roomy ==> sent > 0
    {
      ghost var log := at.log;
      sent := SendTo(data, from, blk);
      assert data[from..from + blk] == data[..size][from..from + blk];
      if at.log != log {
        NextTurn(log, at.log, n0, data[..size], from, blk);
      }
    }

    method SocketSendTo(data: array<byte>, size: uint32) returns (result: int)
      requires at.Valid() && size <= data.Length
      modifies at
      ensures at.Valid() && Reassembles(old(at.log), at.log, data[..size])
      ensures result == size || result == NSAPI_ERROR_DEVICE_ERROR
      ensures result == size ==> Received(at.log[|old(at.log)|..]) == data[..size]
      ensures at.answers && roomy ==> result == size
      ensures FullChunks(at.log[|old(at.log)|..], size) && Encoded(at.log, |old(at.log)|)
    {
      var blk := MAX_WRITE_SIZE;
      var count: uint32 := size;
      ghost var n0 := |at.log|;
      while count > 0
        invariant count <= size && 1 <= blk <= MAX_WRITE_SIZE && (blk == MAX_WRITE_SIZE || count <= blk)
        invariant at.Valid() && old(at.log) <= at.log && Accounted(at.log[n0..], data[..size], size - count)
        invariant Encoded(at.log, n0)
        decreases count
      {
        if count < blk {
          blk := count;
        }
        var sent := SendNext(data, size, size - count, blk, n0);
        if sent < 0 {
          return NSAPI_ERROR_DEVICE_ERROR;
        }
        count := Sub32(count, sent);
      }
      result := size - count;
    }
  }
}
