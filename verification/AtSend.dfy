/** Sending through the AT driver: a buffer goes out in blocks the modem can take. */
module AtSend {
  import opened Bytes

  const MAX_WRITE_SIZE := 1024
  const NSAPI_ERROR_DEVICE_ERROR := -3012

  /** A block announced with USOWR, or USOST when it has a destination, and then written. */
  datatype Block = Block(handle: int, destination: Option<nat>, data: seq<byte>)

  /** The buffer cut into blocks of the greatest size, the last one shorter if need be. */
  function Fragments(data: seq<byte>): (f: seq<seq<byte>>)
    ensures data != [] ==> f != []
    decreases |data|
  {
    if data == [] then []
    else if |data| <= MAX_WRITE_SIZE then [data]
    else [data[..MAX_WRITE_SIZE]] + Fragments(data[MAX_WRITE_SIZE..])
  }

  /** Nothing is lost, added or moved; all blocks but the last are full; and there are as few as can be. */
  lemma {:induction false} FragmentsAreTheBuffer(data: seq<byte>)
    ensures Joined(Fragments(data)) == data
    ensures |Fragments(data)| == (|data| + MAX_WRITE_SIZE - 1) / MAX_WRITE_SIZE
    ensures forall i :: 0 <= i < |Fragments(data)| - 1 ==> |Fragments(data)[i]| == MAX_WRITE_SIZE
    ensures forall i :: 0 <= i < |Fragments(data)| ==> 1 <= |Fragments(data)[i]| <= MAX_WRITE_SIZE
    decreases |data|
  {
    if |data| > MAX_WRITE_SIZE {
      FragmentsAreTheBuffer(data[MAX_WRITE_SIZE..]);
    } else if data != [] {
      assert [data][1..] == [];
      assert Joined([data]) == data + Joined([]);
    }
  }

  /** Fragment `i` is the piece of the buffer from 1024 times `i` on, up to 1024 bytes of it. */
  lemma {:induction false} FragmentAt(data: seq<byte>, i: nat)
    requires i < |Fragments(data)|
    ensures 1024 * i < |data| && Fragments(data)[i] == data[1024 * i..Min(1024 * (i + 1), |data|)]
    decreases |data|
  {
    if |data| > MAX_WRITE_SIZE && i > 0 {
      var rest := data[MAX_WRITE_SIZE..];
      FragmentAt(rest, i - 1);
      var from, to := 1024 * (i - 1), Min(1024 * i, |rest|);
      SliceOfSlice(data, 1024, |rest|, from, to - from);
      assert rest == data[1024..1024 + |rest|];
    }
  }

  /** What the blocks carry. */
  function DataOf(blocks: seq<Block>): (parts: seq<seq<byte>>)
    ensures |parts| == |blocks|
    ensures forall i :: 0 <= i < |blocks| ==> parts[i] == blocks[i].data
  {
    seq(|blocks|, i requires 0 <= i < |blocks| => blocks[i].data)
  }

  /** The first `k` of the blocks that carry `f`. */
  function Blocks(handle: int, destination: Option<nat>, f: seq<seq<byte>>, k: nat): (b: seq<Block>)
    requires k <= |f|
    ensures |b| == k
  {
    seq(k, i requires 0 <= i < k => Block(handle, destination, f[i]))
  }

  lemma {:induction false} JoinedPrefix(parts: seq<seq<byte>>, k: nat)
    requires k <= |parts|
    ensures Joined(parts[..k]) <= Joined(parts)
    decreases |parts| - k
  {
    if k == |parts| {
      assert parts[..k] == parts;
    } else {
      JoinedPrefix(parts, k + 1);
      JoinedAppend(parts[..k], parts[k]);
      assert parts[..k + 1] == parts[..k] + [parts[k]];
    }
  }

  /** The blocks go to the socket and destination given, each with the next 1024 bytes or what is left;
      together they carry a prefix of the data, and all of it when there are as many as fragments. */
  lemma {:induction false} BlocksCarry(handle: int, destination: Option<nat>, data: seq<byte>, k: nat)
    requires k <= |Fragments(data)|
    ensures var b := Blocks(handle, destination, Fragments(data), k);
      && (forall i :: 0 <= i < k ==>
            1024 * i < |data| && b[i] == Block(handle, destination, data[1024 * i..Min(1024 * (i + 1), |data|)]))
      && Joined(DataOf(b)) <= data && (k == |Fragments(data)| ==> Joined(DataOf(b)) == data)
  {
    var f, b := Fragments(data), Blocks(handle, destination, Fragments(data), k);
    forall i | 0 <= i < k
      ensures 1024 * i < |data| && f[i] == data[1024 * i..Min(1024 * (i + 1), |data|)]
    {
      FragmentAt(data, i);
    }
    assert DataOf(b) == f[..k];
    assert f[..|f|] == f;
    JoinedPrefix(f, k);
    FragmentsAreTheBuffer(data);
  }

  /** So it is of the blocks the modem took after `before`. */
  lemma {:induction false} BlocksTaken(before: seq<Block>, blocks: seq<Block>, handle: int, destination: Option<nat>,
                                       data: seq<byte>, k: nat)
    requires k <= |Fragments(data)| && blocks == before + Blocks(handle, destination, Fragments(data), k)
    ensures forall i :: 0 <= i < |blocks| - |before| ==>
      && 1024 * i < |data|
      && blocks[|before| + i] == Block(handle, destination, data[1024 * i..Min(1024 * (i + 1), |data|)])
    ensures var sent := Joined(DataOf(blocks[|before|..]));
      sent <= data && (k == |Fragments(data)| ==> sent == data)
  {
    BlocksCarry(handle, destination, data, k);
    var b := Blocks(handle, destination, Fragments(data), k);
    assert blocks[|before|..] == b;
    assert forall i :: 0 <= i < k ==> blocks[|before| + i] == b[i];
  }

  /** The fragment at `k` is the next piece of the buffer, which ends at the end or after a full block. */
  lemma {:induction false} NextFragment(data: seq<byte>, from: nat, k: nat, blk: nat)
    requires from < |data| && blk == Min(MAX_WRITE_SIZE, |data| - from)
    requires k <= |Fragments(data)| && Fragments(data)[k..] == Fragments(data[from..])
    ensures k < |Fragments(data)| && Fragments(data)[k] == data[from..from + blk]
    ensures Fragments(data)[k + 1..] == Fragments(data[from + blk..])
  {
    var f, rest := Fragments(data), data[from..];
    assert f[k] == f[k..][0] && f[k + 1..] == f[k..][1..];
    assert rest[..blk] == data[from..from + blk] && rest[blk..] == data[from + blk..];
  }

  class UbloxATCellularInterface {
    const reliable: bool     // every command is heard, prompted and answered
    var blocks: seq<Block>   // what the modem has taken
    var lockDepth: nat

    constructor (reliable: bool)
      ensures this.reliable == reliable && blocks == [] && lockDepth == 0
    {
      this.reliable, blocks, lockDepth := reliable, [], 0;
    }

    // One command, prompt, write and OK.  The modem may have taken the block although no OK came.
    method SendBlock(handle: int, destination: Option<nat>, chunk: seq<byte>) returns (ok: bool)
      requires lockDepth > 0
      modifies this`blocks
      ensures ok ==> blocks == old(blocks) + [Block(handle, destination, chunk)]
      ensures !ok ==> blocks in {old(blocks), old(blocks) + [Block(handle, destination, chunk)]}
      ensures reliable ==> ok
    {
      ok := false;
      var prompted := *;
      if prompted || reliable {
        var written: nat := *;
        if written >= |chunk| || reliable {
          blocks := blocks + [Block(handle, destination, chunk)];
          ok := *;
          ok := ok || reliable;
        }
      }
    }

    // One turn of the send loop, on fragment `k` of the text.
    method SendNext(handle: int, destination: Option<nat>, data: array<byte>, from: nat, blk: nat,
                    ghost before: seq<Block>, ghost text: seq<byte>, ghost k: nat) returns (ok: bool, ghost taken: nat)
      requires from < |text| <= data.Length && text == data[..|text|] && blk == Min(MAX_WRITE_SIZE, |text| - from)
      requires k <= |Fragments(text)| && Fragments(text)[k..] == Fragments(text[from..])
      requires blocks == before + Blocks(handle, destination, Fragments(text), k)
      modifies this
      ensures lockDepth == old(lockDepth) && (reliable ==> ok)
      ensures k <= taken <= |Fragments(text)| && blocks == before + Blocks(handle, destination, Fragments(text), taken)
      ensures ok ==> Fragments(text)[taken..] == Fragments(text[from + blk..])
    {
      ghost var f := Fragments(text);
      NextFragment(text, from, k, blk);
      lockDepth := lockDepth + 1;
      assert data[from..from + blk] == f[k];
      ok := SendBlock(handle, destination, data[from..from + blk]);
      ghost var block := Block(handle, destination, f[k]);
      assert Blocks(handle, destination, f, k + 1) == Blocks(handle, destination, f, k) + [block];
      taken := if |blocks| > |before| + k then k + 1 else k;
      lockDepth := lockDepth - 1;
    }

    // The send loop; `k` fragments were taken.
    method SendAll(handle: int, destination: Option<nat>, data: array<byte>, size: nat) returns (ok: bool, ghost k: nat)
      requires size <= data.Length
      modifies this
      ensures lockDepth == old(lockDepth) && (reliable ==> ok)
      ensures k <= |Fragments(data[..size])| && (ok ==> k == |Fragments(data[..size])|)
      ensures blocks == old(blocks) + Blocks(handle, destination, Fragments(data[..size]), k)
    {
      var blk, count := MAX_WRITE_SIZE, size;
      ghost var before, text := blocks, data[..size];
      ghost var f := Fragments(text);
      ok, k := true, 0;
      assert text[0..] == text && f[0..] == f;
      while count > 0 && ok
        invariant 0 <= count <= size && 1 <= blk && (blk == MAX_WRITE_SIZE || (blk < MAX_WRITE_SIZE && count == 0))
        invariant lockDepth == old(lockDepth) && (reliable ==> ok) && k <= |f|
        invariant blocks == before + Blocks(handle, destination, f, k)
        invariant ok ==> f[k..] == Fragments(text[size - count..])
      {
        if count < blk {
          blk := count;
        }
        var from := size - count;
        ok, k := SendNext(handle, destination, data, from, blk, before, text, k);
        count := count - blk;
        assert size - count == from + blk;
      }
    }

    // `socket_send` without a destination, `socket_sendto` with one.
    method SocketSend(handle: int, destination: Option<nat>, data: array<byte>, size: nat) returns (result: int)
      requires size <= data.Length
      modifies this
      ensures lockDepth == old(lockDepth) && old(blocks) <= blocks
      ensures result == size || result == NSAPI_ERROR_DEVICE_ERROR
      ensures reliable ==> result == size
      ensures var f := Fragments(data[..size]);
        exists k :: 0 <= k <= |f| && blocks == old(blocks) + Blocks(handle, destination, f, k)
      ensures result == size ==>
        var f := Fragments(data[..size]); blocks == old(blocks) + Blocks(handle, destination, f, |f|)
      ensures var text, n := data[..size], |old(blocks)|;
        forall i :: 0 <= i < |blocks| - n ==>
          && 1024 * i < size
          && blocks[n + i] == Block(handle, destination, text[1024 * i..Min(1024 * (i + 1), size)])
      ensures var sent := Joined(DataOf(blocks[|old(blocks)|..]));
        sent <= data[..size] && (result == size ==> sent == data[..size])
    {
      var success;
      ghost var k;
      success, k := SendAll(handle, destination, data, size);
      BlocksTaken(old(blocks), blocks, handle, destination, data[..size], k);
      result := if success then size else NSAPI_ERROR_DEVICE_ERROR;
    }
  }
}
