/** The socket calls of the AT driver, on the table and the modem of `SocketProtocol`. */
module AtSockets {
  import opened Bytes
  import opened SocketProtocol
  import opened AtExchange

  const SOCKET_TIMEOUT := 1000
  const MAX_READ_SIZE := 1024
  const MAX_WRITE_SIZE := 1024

  const NSAPI_ERROR_OK := 0
  const NSAPI_ERROR_WOULD_BLOCK := -3001
  const NSAPI_ERROR_UNSUPPORTED := -3002
  const NSAPI_ERROR_NO_SOCKET := -3005
  const NSAPI_ERROR_NO_MEMORY := -3006
  const NSAPI_ERROR_DEVICE_ERROR := -3012
  const NSAPI_ERROR_CONNECTION_LOST := -3016

  datatype Protocol = Tcp | Udp | Other

  datatype Command =
    | Usocr(proto: int, port: Option<nat>)
    | Usocl(handle: int)
    | Usoctl(handle: int)
    | Usord(handle: int, length: nat)

  /** The command was sent, or nothing was. */
  predicate SentAtMost(before: seq<Command>, commands: seq<Command>, c: Command)
  {
    commands in {before, before + [c]}
  }

  /** How one turn of a receive loop ended. */
  datatype Turn = Got(n: nat) | Waited | Failed | Expired
  {
    function Count(count: nat): nat
    {
      if Got? then count + n else count
    }

    /** The bytes it added to `buf` at `count`. */
    function Bytes(buf: seq<byte>, count: nat): seq<byte>
      requires Got? ==> count + n <= |buf|
    {
      if Got? then buf[count..count + n] else []
    }

    /** It wrote index `k` of the buffer. */
    predicate Fills(count: nat, k: int)
    {
      Got? && count <= k < count + n
    }
  }

  /** One command at most went out in the turn: one if it got something, none if it waited or expired; and
      it asks for all there is room for, up to 1024 bytes. */
  predicate Counted(before: seq<Command>, commands: seq<Command>, turn: Turn, size: nat)
  {
    && before <= commands && |commands| <= |before| + 1
    && (|commands| > |before| ==>
          commands[|before|].Usord? && commands[|before|].length == if size < 1024 then size else 1024)
    && (turn.Got? ==> |commands| == |before| + 1)
    && (turn.Waited? || turn.Expired? ==> commands == before)
  }

  /** A read of `size` bytes for the slot: the first command asks for all there is room for, up to 1024 bytes,
      and a modem that gives all it has gives at least what was unread at the start. */
  ghost predicate Begun(s0: State, i: nat, before: seq<Command>, commands: seq<Command>, generous: bool,
                        size: nat, count: nat)
    requires i < |s0.slots|
  {
    var h, asked := s0.slots[i].handle, if size < 1024 then size else 1024;
    if count == 0 then commands == before
    else
      && before < commands && commands[|before|] == Usord(h, asked)
      && (generous ==> h in s0.modem.queues && count >= Min(asked, |s0.modem.queues[h]|))
  }

  /** A read under way: what was received, and asked for; before that, pending bytes still show. */
  ghost predicate UnderWay(s0: State, s: State, i: nat, got: seq<byte>, before: seq<Command>, commands: seq<Command>,
                           generous: bool, size: nat)
    requires i < |s0.slots| && i < |s.slots|
  {
    && Received(s0, s, i, got) && Begun(s0, i, before, commands, generous, size, |got|)
    && (got == [] && s0.slots[i].pending > 0 ==> s.slots[i].pending > 0 || s.slots[i].handle == UNUSED)
  }

  /** The first turn that gets something, nothing having been read before. */
  lemma {:induction false} FirstTurn(s0: State, s1: State, i: nat, before: seq<Command>, commands: seq<Command>,
                                     generous: bool, size: nat, n: nat)
    requires i < SLOTS == |s0.slots| == |s1.slots| && Received(s0, s1, i, []) && SaneModem(s0.modem) && n > 0
    requires s1.slots[i].handle != UNUSED
    requires commands == before + [Usord(s1.slots[i].handle, if size < 1024 then size else 1024)]
    requires generous ==>
      && s1.slots[i].handle in s1.modem.queues
      && n >= Min(if size < 1024 then size else 1024, |s1.modem.queues[s1.slots[i].handle]|)
    ensures Begun(s0, i, before, commands, generous, size, n)
  {
    if generous {
      UnreadGrows(s0.modem, s1.modem, s0.slots[i].handle);
    }
  }

  /** The serial link and the modem at its end. */
  class AtLink {
    const honest: bool     // the modem keeps to the protocol
    const reliable: bool   // no command and no reply is lost on the way
    const grants: bool     // the modem has a socket for whoever asks
    const generous: bool   // a read gives up all that was asked for, as far as it is there
    const prompt: bool     // what is on its way comes before a wait is over
    var kinds: map<int, int>   // the protocol number each handle was last created with
    var modem: Modem
    var commands: seq<Command>
    var clock: nat         // milliseconds

    constructor (honest: bool, reliable: bool, grants: bool, generous: bool, prompt: bool)
      ensures this.honest == honest && this.reliable == reliable && this.grants == grants && this.generous == generous
      ensures this.prompt == prompt
      ensures modem == START.modem && commands == [] && kinds == map[]
    {
      this.honest, this.reliable, this.grants, this.generous := honest, reliable, grants, generous;
      this.prompt := prompt;
      modem, commands, clock, kinds := START.modem, [], 0, map[];
    }

    // Time passes.
    method Pass(least: nat)
      modifies this`clock
      ensures clock >= old(clock) + least
    {
      var ms: nat := *;
      clock := clock + Max(ms, least);
    }
  }

  // A socket number that is not in use.
  method FreeNumber(used: set<int>) returns (h: nat)
    ensures h !in used
  {
    var rest := used;
    h := 0;
    while h in rest
      invariant forall k :: k in used && k >= h ==> k in rest
      decreases |rest|
    {
      rest := rest - {h};
      h := h + 1;
    }
  }

  class UbloxATCellularInterface {
    const sockets: array<Slot>
    const at: AtLink
    var atTimeout: int
    var lockDepth: nat
    ghost var timeouts: seq<int>   // all that were ever set

    constructor (at: AtLink, timeout: int)
      requires at.modem == START.modem
      ensures this.at == at && fresh(sockets) && sockets[..] == START.slots
      ensures atTimeout == timeout && lockDepth == 0
      ensures at.honest ==> Good()
    {
      this.at := at;
      sockets := new Slot[SLOTS](_ => FREE);
      atTimeout, lockDepth, timeouts := timeout, 0, [];
      new;
      assert sockets[..] == START.slots;
      StartKeepsInv();
    }

    ghost predicate Valid()
    {
      sockets.Length == SLOTS
    }

    ghost function Now(): State
      reads sockets, at
    {
      State(sockets[..], at.modem)
    }

    /** The driver is in step with an honest modem and has no reply outstanding. */
    ghost predicate Good()
      reads sockets, at
    {
      at.honest && Inv(Now()) && Quiet(at.modem.channel)
    }

    /** In step, with reply `r` outstanding. */
    ghost predicate Expecting(r: Msg)
      reads sockets, at
    {
      at.honest && Inv(Now()) && Waiting(at.modem.channel, r)
    }

    method FindSocket(modemHandle: int) returns (socket: Option<nat>)
      ensures socket == Find(sockets[..], modemHandle)
    {
      socket := None;
      var x := 0;
      while socket == None && x < sockets.Length
        invariant 0 <= x <= sockets.Length
        invariant socket == None ==> forall k :: 0 <= k < x ==> sockets[k].handle != modemHandle
        invariant socket.Some? ==> socket.value < sockets.Length && sockets[socket.value].handle == modemHandle
        invariant socket.Some? ==> forall k :: 0 <= k < socket.value ==> sockets[k].handle != modemHandle
      {
        if sockets[x].handle == modemHandle {
          socket := Some(x);
        }
        x := x + 1;
      }
    }

    // The handlers of +UUSORD, +UUSORF, +UUSOCL and +UUPSDD, on the URC at the front.
    method HandleUrc()
      requires at.modem.channel != [] && at.modem.channel[0].IsUrc()
      modifies sockets, at`modem
      ensures at.modem == Popped(old(at.modem))
      ensures sockets[..] == Handle(old(sockets[..]), old(at.modem.channel)[0])
      ensures var m := old(at.modem.channel)[0];
        forall j :: 0 <= j < sockets.Length ==>
          (if Find(old(sockets[..]), m.handle) != Some(j) then sockets[j] == old(sockets[j])
           else if m.DataUrc? then sockets[j] == Slot(m.handle, m.total, old(sockets[j]).callback)
           else sockets[j] == Slot(-1, 0, None))
      ensures old(at.honest && Inv(Now())) ==>
        Inv(Now()) && KeepsClosed(old(at.modem), at.modem) && KeepsPending(old(sockets[..]), sockets[..])
    {
      ghost var s := Now();
      var m := at.modem.channel[0];
      var socket := FindSocket(m.handle);
      if socket.Some? {
        if m.DataUrc? {
          sockets[socket.value] := sockets[socket.value].(pending := m.total);
        } else {
          sockets[socket.value] := FREE;
        }
      }
      at.modem := Popped(at.modem);
      if Inv(s) {
        assert Now() == Apply(s, Urc);
        assert SaneMsg(m);
        UrcKeepsPending(s.slots, m);
        StepKeepsInv(s, Urc);
        StepKeepsClosed(s, Urc);
      }
    }

    // One thing the network does; a modem that does not keep to the protocol may say anything.
    method NetworkStep()
      requires Valid()
      modifies at`modem
      ensures old(at.honest && Inv(Now())) ==>
        && Inv(Now()) && Drifts(old(at.modem), at.modem) && Extends(old(at.modem.channel), at.modem.channel)
        && KeepsClosed(old(at.modem), at.modem)
    {
      var t: Step := *;
      if !at.honest {
        at.modem := *;
      } else {
        var s := State(sockets[..], at.modem);
        if IsEnvironment(t) && SaneModem(s.modem) && Enabled(s, t) {
          EnvironmentStep(s, t);
          at.modem := Apply(s, t).modem;
        }
      }
    }

    // Anything the network does while the host is busy elsewhere.
    method Environment()
      requires Valid()
      modifies at`modem, at`clock
      ensures old(at.honest && Inv(Now())) ==>
        && Inv(Now()) && Drifts(old(at.modem), at.modem) && Extends(old(at.modem.channel), at.modem.channel)
        && KeepsClosed(old(at.modem), at.modem)
      ensures at.clock >= old(at.clock)
    {
      var budget: nat := *;
      while budget > 0
        invariant old(at.honest && Inv(Now())) ==>
          && Inv(Now()) && Drifts(old(at.modem), at.modem) && Extends(old(at.modem.channel), at.modem.channel)
          && KeepsClosed(old(at.modem), at.modem)
        invariant at.clock >= old(at.clock)
      {
        ghost var m := at.modem;
        NetworkStep();
        at.Pass(0);
        if old(at.honest && Inv(Now())) {
          DriftsOn(old(at.modem), m, at.modem);
        }
        budget := budget - 1;
      }
    }

    // One URC handled while reply `r` is awaited.
    method HandleAwaiting(ghost s: State, ghost r: Msg, ghost h: int, ghost expecting: bool)
      requires at.modem.channel != [] && at.modem.channel[0].IsUrc()
      requires expecting ==> at.honest && Receiving(s, Now(), r, h)
      modifies sockets, at`modem
      ensures at.modem == Popped(old(at.modem))
      ensures expecting ==> Receiving(s, Now(), r, h)
    {
      ghost var mid := Now();
      HandleUrc();
      if expecting {
        ReceivingStep(s, mid, Now(), r, h);
      }
    }

    // Runs URC handlers until a reply of the wanted kind is at the front, or gives up.
    method RecvReply(want: Want, ghost r: Msg, ghost h: int) returns (ok: bool)
      requires Valid()
      modifies sockets, at`modem
      ensures ok ==> at.modem.channel != [] && Matches(want, at.modem.channel[0])
      ensures old(Expecting(r)) && Matches(want, r) ==>
        && Receiving(old(Now()), Now(), r, h)
        && (at.reliable ==> ok)
        && (ok ==> at.modem.channel[0] == r && Quiet(at.modem.channel[1..]))
    {
      var budget: nat := *;
      ok := false;
      ghost var s := Now();
      ghost var expecting := Expecting(r) && Matches(want, r);
      assert expecting ==> s.modem.channel[0..] == s.modem.channel && s.modem.channel[..0] == [];
      while !ok && (at.reliable || budget > 0) && at.modem.channel != []
        invariant ok ==> at.modem.channel != [] && Matches(want, at.modem.channel[0])
        invariant expecting ==> Receiving(s, Now(), r, h)
        decreases |at.modem.channel|, !ok
      {
        if expecting {
          WaitingPop(at.modem.channel, r);
        }
        if at.modem.channel[0].IsUrc() {
          HandleAwaiting(s, r, h, expecting);
        } else if Matches(want, at.modem.channel[0]) {
          ok := true;
        } else {
          at.modem := Popped(at.modem);
        }
        budget := if budget > 0 then budget - 1 else 0;
      }
      if expecting {
        WaitingPop(at.modem.channel, r);
      }
    }

    // The message at the front: a URC is handled, a reply nobody waits for is dropped.
    method Deliver()
      requires Valid() && at.modem.channel != []
      modifies sockets, at`modem
      ensures |at.modem.channel| < |old(at.modem.channel)|
      ensures old(Good()) ==> Good() && Idled(old(Now()), Now())
    {
      if at.modem.channel[0].IsUrc() {
        HandleUrc();
      } else {
        at.modem := Popped(at.modem);
      }
    }

    // `recv` of a string that never comes: URC handlers run until the timeout.
    method Pump()
      requires Valid()
      modifies sockets, at`modem, at`clock
      ensures at.clock > old(at.clock)
      ensures old(Good()) ==> Good() && Idled(old(Now()), Now())
      ensures at.prompt ==> at.modem.channel == []
    {
      ghost var good, s0 := Good(), Now();
      Environment();
      at.Pass(1);
      var budget: nat := *;
      while (at.prompt || budget > 0) && at.modem.channel != []
        invariant good ==> Good() && Idled(s0, Now())
        invariant at.clock > old(at.clock)
        decreases |at.modem.channel|
      {
        ghost var s1 := Now();
        Deliver();
        if good {
          IdledOn(s0, s1, Now());
        }
        budget := if budget > 0 then budget - 1 else 0;
      }
    }

    // ---------------------------------------------------------------- commands

    // The modem serves USORD or USORF: it gives up some unread bytes, all of them only if asked to.
    method ServeRead(h: int, length: nat) returns (served: bool, ghost r: Msg)
      requires Valid() && length >= 1
      modifies at`modem
      ensures old(Good()) ==> served == (h in old(at.modem).queues) && (!served ==> at.modem == old(at.modem))
      ensures old(Good()) && served ==>
        && r.ReadReply? && r.handle == h && |r.data| <= length && |r.data| <= |old(at.modem).queues[h]|
        && (old(at.modem).queues[h] != [] ==> r.data != [])
        && (at.generous ==> |r.data| == Min(length, |old(at.modem).queues[h]|))
        && Now() == Apply(old(Now()), Read(h, |r.data|)) && Expecting(r)
        && at.modem.channel == old(at.modem.channel) + [r]
    {
      ghost var s := Now();
      r := FREE_REPLY;
      if !at.honest {
        served := *;
        at.modem := *;
      } else {
        served := h in at.modem.queues && SaneModem(at.modem);
        if served {
          var most := Min(length, |at.modem.queues[h]|);
          var k: nat := *;
          if at.generous || !(1 <= k <= most) {
            k := most;
          }
          r := ReadReply(h, at.modem.queues[h][..k]);
          var t := Read(h, k);
          if Good() {
            ModemStepKeepsInv(s, t);
            WaitingAppend(at.modem.channel, r);
          }
          at.modem := Apply(State(sockets[..], at.modem), t).modem;
        }
      }
    }

    // Sends a read for slot `i` and accounts for the reply; `taken` is what the modem gave up for it.
    method ReadExchange(i: nat, readBlk: nat) returns (ok: bool, data: seq<byte>, ghost taken: seq<byte>)
      requires Valid() && i < SLOTS && readBlk >= 1
      modifies sockets, at`modem, at`commands, at`clock
      ensures at.clock >= old(at.clock)
      ensures SentAtMost(old(at.commands), at.commands, Usord(old(sockets[i].handle), readBlk))
      ensures ok ==> at.commands == old(at.commands) + [Usord(old(sockets[i].handle), readBlk)]
      ensures old(Good()) ==> Inv(Now()) && OnlyFreed(old(sockets[..]), sockets[..]) && (at.reliable ==> Good())
      ensures old(Good()) ==> Took(old(at.modem), at.modem, old(sockets[i].handle), taken)
      ensures old(Good()) && old(sockets[i].handle) == UNUSED ==> taken == []
      ensures old(Good()) && ok ==>
        && Good() && old(sockets[i].handle) != UNUSED && taken == data && |data| <= readBlk
        && (old(sockets[i].pending) > 0 && sockets[i].handle != UNUSED ==> data != [])
      ensures old(Good()) && ok && at.generous ==>
        && old(sockets[i].handle) in old(at.modem.queues)
        && |data| >= Min(readBlk, |old(at.modem.queues)[old(sockets[i].handle)]|)
      ensures old(Good()) && at.reliable && !ok ==> old(sockets[i].handle) !in at.modem.queues
    {
      var h := sockets[i].handle;
      data, taken := [], [];
      ghost var good, s0 := Good(), Now();
      Environment();
      if good {
        TookNothing(s0.modem, at.modem, h);
      }
      ok := *;
      ok := ok || at.reliable;
      if !ok {
        return;
      }
      at.commands := at.commands + [Usord(h, readBlk)];
      ghost var s1 := Now();
      ghost var r;
      ok, r := ServeRead(h, readBlk);
      if !ok {
        return;
      }
      ghost var s2 := Now();
      Environment();
      ghost var s3 := Now();
      if good {
        AllAskedFor(s0.modem, s1.modem, h, readBlk);
        WaitingExtends(s2.modem.channel, s3.modem.channel, r);
        ReadTook(s0, s1, s2, s3.modem, h, r);
        taken := r.data;
      }
      ok := RecvReply(WantRead, r, h);
      if ok {
        ghost var s4 := Now();
        data := at.modem.channel[0].data;
        at.modem := Popped(at.modem);
        sockets[i] := sockets[i].(pending := Sub32(sockets[i].pending, |data|));
        if good {
          ReadAccounted(s0, s1, s3, s4, i, h, r);
          assert Now() == Apply(s4, TakeRead(i));
        }
      }
    }

    method AtSetTimeout(timeout: int)
      modifies this`atTimeout, this`timeouts
      ensures atTimeout == timeout && timeouts == old(timeouts) + [timeout]
    {
      atTimeout := timeout;
      timeouts := timeouts + [timeout];
    }

    // One turn of the event thread.
    method HandleEvent()
      requires Valid()
      modifies this, sockets, at`modem, at`clock
      ensures atTimeout == old(atTimeout) && lockDepth == old(lockDepth) && at.clock > old(at.clock)
      ensures at.prompt ==> at.modem.channel == []
      ensures old(Good()) ==>
        Good() && Took(old(at.modem), at.modem, UNUSED, []) && OnlyFreed(old(sockets[..]), sockets[..])
      ensures old(Good()) ==> KeepsPending(old(sockets[..]), sockets[..])
      ensures timeouts == old(timeouts) + [10, old(atTimeout)]
    {
      ghost var m := at.modem;
      lockDepth := lockDepth + 1;
      var saved := atTimeout;
      AtSetTimeout(10);
      Pump();
      AtSetTimeout(saved);
      lockDepth := lockDepth - 1;
      if Drifts(m, at.modem) {
        TookNothing(m, at.modem, UNUSED);
      }
    }

    // Before a thread has the lock the event thread may have had it.
    method WaitForLock()
      requires Valid()
      modifies this, sockets, at`modem, at`clock
      ensures atTimeout == old(atTimeout) && lockDepth == old(lockDepth) && at.clock >= old(at.clock)
      ensures old(Good()) ==>
        Good() && Took(old(at.modem), at.modem, UNUSED, []) && OnlyFreed(old(sockets[..]), sockets[..])
      ensures old(Good()) ==> KeepsPending(old(sockets[..]), sockets[..])
      ensures at.prompt && at.clock > old(at.clock) ==> at.modem.channel == []
      ensures at.clock == old(at.clock) ==> at.modem == old(at.modem)
    {
      var first := *;
      if first {
        HandleEvent();
      } else if Good() {
        TookNothing(at.modem, at.modem, UNUSED);
      }
    }

    // Reads what is pending into `buf` from `count` on; the caller has room for `size` more.
    method ReadPending(i: nat, buf: array<byte>, count: nat, size: nat) returns (outcome: Turn, ghost taken: seq<byte>)
      requires Valid() && i < SLOTS && size > 0 && count + size <= buf.Length
      modifies sockets, at`modem, at`commands, at`clock, buf
      ensures at.clock >= old(at.clock)
      ensures outcome.Failed? || (outcome.Got? && 1 <= outcome.n <= size)
      ensures Counted(old(at.commands), at.commands, outcome, size)
      ensures forall k :: 0 <= k < buf.Length && !outcome.Fills(count, k) ==> buf[k] == old(buf[k])
      ensures old(Good()) ==> Inv(Now()) && OnlyFreed(old(sockets[..]), sockets[..]) && (at.reliable ==> Good())
      ensures old(Good()) ==> Took(old(at.modem), at.modem, old(sockets[i].handle), taken)
      ensures old(Good()) && old(sockets[i].handle) == UNUSED ==> taken == []
      ensures old(Good()) && outcome.Got? ==>
        && Good() && outcome.n <= MAX_READ_SIZE && old(sockets[i].handle) != UNUSED
        && taken == outcome.Bytes(buf[..], count)
      ensures SentAtMost(old(at.commands), at.commands,
                         Usord(old(sockets[i].handle), if size < 1024 then size else 1024))
      ensures old(Good()) && outcome.Got? && at.generous ==>
        && old(sockets[i].handle) in old(at.modem.queues)
        && outcome.n >= Min(if size < 1024 then size else 1024, |old(at.modem.queues)[old(sockets[i].handle)]|)
      ensures old(Good()) && at.reliable && outcome.Failed? && old(sockets[i].pending) > 0 ==>
        old(sockets[i].handle) !in at.modem.queues || sockets[i].handle == UNUSED
    {
      var readBlk := Min(MAX_READ_SIZE, size);
      outcome := Failed;
      var ok, reply;
      ok, reply, taken := ReadExchange(i, readBlk);
      if ok {
        var wanted := Min(|reply|, size);
        var readable := *;
        if wanted > 0 && (readable || at.reliable) {
          forall k | 0 <= k < wanted {
            buf[count + k] := reply[k];
          }
          outcome := Got(wanted);
          assert outcome.Bytes(buf[..], count) == reply[..wanted];
        }
      }
    }

    // One turn, inside the lock, of a receive loop that started at `start`.
    method LockedTurn(i: nat, buf: array<byte>, count: nat, size: nat, start: nat)
        returns (outcome: Turn, ghost taken: seq<byte>)
      requires Valid() && i < SLOTS && size > 0 && count + size <= buf.Length
      modifies this, sockets, at`modem, at`commands, at`clock, buf
      ensures atTimeout == old(atTimeout) && lockDepth == old(lockDepth) && at.clock >= old(at.clock)
      ensures outcome.Waited? ==> old(at.clock) < start + SOCKET_TIMEOUT && at.clock > old(at.clock)
      ensures outcome.Expired? ==> at.clock >= start + SOCKET_TIMEOUT && sockets[i].pending == 0
      ensures outcome.Got? ==> 1 <= outcome.n <= size
      ensures Counted(old(at.commands), at.commands, outcome, size)
      ensures forall k :: 0 <= k < buf.Length && !outcome.Fills(count, k) ==> buf[k] == old(buf[k])
      ensures old(Good()) ==> sockets[i].handle in {old(sockets[i].handle), UNUSED}
      ensures old(Good()) ==> Inv(Now()) && (at.reliable ==> Good())
      ensures old(Good()) ==> Took(old(at.modem), at.modem, old(sockets[i].handle), taken)
      ensures old(Good()) && old(sockets[i].handle) == UNUSED ==> taken == []
      ensures old(Good()) && outcome.Got? ==> outcome.n <= MAX_READ_SIZE && old(sockets[i].handle) != UNUSED
      ensures old(Good()) && !outcome.Failed? ==> Good() && taken == outcome.Bytes(buf[..], count)
      ensures old(Good()) && at.reliable && outcome.Failed? ==>
        old(sockets[i].handle) !in at.modem.queues || sockets[i].handle == UNUSED
      ensures SentAtMost(old(at.commands), at.commands,
                         Usord(old(sockets[i].handle), if size < 1024 then size else 1024))
      ensures outcome.Got? || outcome.Failed? <==> old(sockets[i].pending) > 0
      ensures old(Good()) && outcome.Got? && at.generous ==>
        && old(sockets[i].handle) in old(at.modem.queues)
        && outcome.n >= Min(if size < 1024 then size else 1024, |old(at.modem.queues)[old(sockets[i].handle)]|)
      ensures timeouts == old(timeouts) + [1000, old(atTimeout)]
      ensures at.prompt && outcome.Waited? ==> at.modem.channel == []
      ensures outcome.Expired? ==> at.modem == old(at.modem) && at.clock == old(at.clock)
    {
      lockDepth := lockDepth + 1;
      var saved := atTimeout;
      AtSetTimeout(1000);
      taken := [];
      if sockets[i].pending > 0 {
        outcome, taken := ReadPending(i, buf, count, size);
      } else {
        ghost var m, h := at.modem, sockets[i].handle;
        if at.clock - start < SOCKET_TIMEOUT {
          Pump();
          outcome := Waited;
        } else {
          outcome := Expired;
        }
        if Drifts(m, at.modem) {
          TookNothing(m, at.modem, h);
        }
      }
      AtSetTimeout(saved);
      lockDepth := lockDepth - 1;
    }

    // One turn of a receive loop; the event thread may run before the lock is had.
    method RecvTurn(i: nat, buf: array<byte>, count: nat, size: nat, start: nat)
        returns (outcome: Turn, ghost taken: seq<byte>)
      requires Valid() && i < SLOTS && size > 0 && count + size <= buf.Length
      modifies this, sockets, at`modem, at`commands, at`clock, buf
      ensures atTimeout == old(atTimeout) && lockDepth == old(lockDepth) && at.clock >= old(at.clock)
      ensures outcome.Waited? ==> old(at.clock) < start + SOCKET_TIMEOUT && at.clock > old(at.clock)
      ensures outcome.Expired? ==> at.clock >= start + SOCKET_TIMEOUT && sockets[i].pending == 0
      ensures outcome.Got? ==> 1 <= outcome.n <= size
      ensures Counted(old(at.commands), at.commands, outcome, size)
      ensures forall k :: 0 <= k < buf.Length && !outcome.Fills(count, k) ==> buf[k] == old(buf[k])
      ensures old(Good()) ==> sockets[i].handle in {old(sockets[i].handle), UNUSED}
      ensures old(Good()) ==> Inv(Now()) && (at.reliable ==> Good())
      ensures old(Good()) ==> Took(old(at.modem), at.modem, old(sockets[i].handle), taken)
      ensures old(Good()) && old(sockets[i].handle) == UNUSED ==> taken == []
      ensures old(Good()) && outcome.Got? ==> outcome.n <= MAX_READ_SIZE && old(sockets[i].handle) != UNUSED
      ensures old(Good()) && !outcome.Failed? ==> Good() && taken == outcome.Bytes(buf[..], count)
      ensures old(Good()) && at.reliable && outcome.Failed? ==>
        old(sockets[i].handle) !in at.modem.queues || sockets[i].handle == UNUSED
      ensures old(Good()) && outcome.Got? ==>
        at.commands == old(at.commands) + [Usord(old(sockets[i].handle), if size < 1024 then size else 1024)]
      ensures old(Good()) && old(sockets[i].pending) > 0 && (outcome.Waited? || outcome.Expired?) ==>
        sockets[i].handle == UNUSED
      ensures old(Good()) && outcome.Got? && at.generous ==>
        && old(sockets[i].handle) in old(at.modem.queues)
        && outcome.n >= Min(if size < 1024 then size else 1024, |old(at.modem.queues)[old(sockets[i].handle)]|)
      ensures at.prompt && outcome.Waited? ==> at.modem.channel == []
      ensures at.prompt && outcome.Expired? ==>
        at.modem.channel == [] || (at.clock == old(at.clock) && at.modem == old(at.modem))
    {
      ghost var good, m0, h := Good(), at.modem, sockets[i].handle;
      WaitForLock();
      ghost var m1 := at.modem;
      outcome, taken := LockedTurn(i, buf, count, size, start);
      if good {
        TookLater(m0, m1, at.modem, h, taken);
        if h in m1.queues && h != UNUSED {
          UnreadGrows(m0, m1, h);
        }
      }
    }

    /** If time has passed since `start`, a prompt link has delivered all that was on its way. */
    ghost predicate CaughtUp(start: nat)
      reads at
    {
      at.prompt && at.clock > start ==> at.modem.channel == []
    }

    // A turn of the loop, with account kept of what slot `i` has received since `s0`.
    method RecvTracked(i: nat, buf: array<byte>, count: nat, size: nat, start: nat, ghost s0: State, ghost good: bool,
                       ghost before: seq<Command>, ghost total: nat)
        returns (turn: Turn, ghost taken: seq<byte>)
      requires Valid() && i < SLOTS == |s0.slots| && size > 0 && count + size <= buf.Length
      requires count == 0 ==> size == total
      requires good ==> at.honest && SaneModem(s0.modem)
      requires good ==> UnderWay(s0, Now(), i, buf[..count], before, at.commands, at.generous, total)
      requires CaughtUp(start) || count > 0
      modifies this, sockets, at`modem, at`commands, at`clock, buf
      ensures atTimeout == old(atTimeout) && lockDepth == old(lockDepth) && at.clock >= old(at.clock)
      ensures turn.Waited? ==> old(at.clock) < start + SOCKET_TIMEOUT && at.clock > old(at.clock)
      ensures turn.Expired? ==> at.clock >= start + SOCKET_TIMEOUT && sockets[i].pending == 0
      ensures turn.Got? ==> 1 <= turn.n <= size && (good ==> turn.n <= MAX_READ_SIZE)
      ensures Counted(old(at.commands), at.commands, turn, size)
      ensures forall k :: 0 <= k < buf.Length && !turn.Fills(count, k) ==> buf[k] == old(buf[k])
      ensures good && !turn.Failed? ==>
        UnderWay(s0, Now(), i, buf[..turn.Count(count)], before, at.commands, at.generous, total)
      ensures good && turn.Failed? ==> GaveUp(s0, Now(), i, buf[..count] + taken, at.reliable)
      ensures turn.Waited? ==> CaughtUp(start)
      ensures good && turn.Expired? && count == 0 && at.prompt && sockets[i].handle != UNUSED ==>
        NothingUnread(s0, i)
    {
      ghost var s1, filled := Now(), buf[..count];
      turn, taken := RecvTurn(i, buf, count, size, start);
      if good {
        assert buf[..count] == filled;
        TookMore(s0, s1, at.modem, i, filled, taken);
        if count == 0 && turn.Got? {
          assert filled == [];
          FirstTurn(s0, s1, i, old(at.commands), at.commands, at.generous, size, turn.n);
        }
        if !turn.Failed? {
          ReceivedMore(s0, s1, Now(), i, filled, taken);
          assert buf[..turn.Count(count)] == filled + taken;
          if turn.Expired? && count == 0 && at.prompt && sockets[i].handle != UNUSED {
            assert filled + taken == [];
            AllDelivered(s0, Now(), i);
          }
        }
      }
    }

    // TCP style: fills the buffer until it is full or nothing comes for the timeout.  On an error,
    // `got` bytes are in the buffer and `lost` may have been read without getting there.
    method SocketRecv(i: nat, data: array<byte>, size: nat) returns (result: int, ghost got: nat, ghost lost: seq<byte>)
      requires Valid() && i < SLOTS && size <= data.Length
      modifies this, sockets, at`modem, at`commands, at`clock, data
      ensures atTimeout == old(atTimeout) && lockDepth == old(lockDepth)
      ensures result == 0 ==> size == 0
      ensures result == NSAPI_ERROR_WOULD_BLOCK || 0 <= result < size ==>
        at.clock >= old(at.clock) + 1000 && sockets[i].pending == 0
      ensures 0 <= result <= size || result in {NSAPI_ERROR_DEVICE_ERROR, NSAPI_ERROR_WOULD_BLOCK}
      ensures got <= size && (result != NSAPI_ERROR_DEVICE_ERROR ==> got == Max(result, 0) && lost == [])
      ensures forall k :: got <= k < data.Length ==> data[k] == old(data[k])
      ensures old(Good()) ==> Inv(Now()) && (at.reliable || result != NSAPI_ERROR_DEVICE_ERROR ==> Good())
      ensures old(Good()) ==> Took(old(at.modem), at.modem, old(sockets[i].handle), data[..got] + lost)
      ensures old(Good()) && at.reliable && result == NSAPI_ERROR_DEVICE_ERROR ==>
        old(sockets[i].handle) !in at.modem.queues || sockets[i].handle == UNUSED
      ensures old(Good()) && result >= 0 ==>
        Begun(old(Now()), i, old(at.commands), at.commands, at.generous, size, result)
      ensures old(Good()) && old(sockets[i].pending) > 0 && result == NSAPI_ERROR_WOULD_BLOCK ==>
        sockets[i].handle == UNUSED
      ensures old(Good()) && at.prompt && result == NSAPI_ERROR_WOULD_BLOCK && sockets[i].handle != UNUSED ==>
        NothingUnread(old(Now()), i)
    {
      ghost var s0, good, h := Now(), Good(), sockets[i].handle;
      result, lost := NSAPI_ERROR_DEVICE_ERROR, [];
      var success, left, count, start := true, size, 0, at.clock;
      if good {
        TookNothing(s0.modem, s0.modem, h);
      }
      while success && left > 0
        invariant atTimeout == old(atTimeout) && lockDepth == old(lockDepth)
        invariant count + left < size || result == NSAPI_ERROR_WOULD_BLOCK ==>
          at.clock >= start + SOCKET_TIMEOUT && sockets[i].pending == 0 && left == 0
        invariant count == 0 && left == 0 && success ==> size == 0
        invariant 0 <= count && 0 <= left && count + left <= size && (success ==> result == NSAPI_ERROR_DEVICE_ERROR)
        invariant !success ==> result == NSAPI_ERROR_DEVICE_ERROR || (result == NSAPI_ERROR_WOULD_BLOCK && count == 0)
        invariant forall k :: count <= k < data.Length ==> data[k] == old(data[k])
        invariant success || result == NSAPI_ERROR_WOULD_BLOCK ==> lost == []
        invariant count == 0 && left > 0 ==> left == size
        invariant success && count == 0 ==> CaughtUp(start)
        invariant good && at.prompt && result == NSAPI_ERROR_WOULD_BLOCK && sockets[i].handle != UNUSED ==>
          NothingUnread(s0, i)
        invariant good && (success || result == NSAPI_ERROR_WOULD_BLOCK) ==>
          UnderWay(s0, Now(), i, data[..count], old(at.commands), at.commands, at.generous, size)
        invariant good && !success && result == NSAPI_ERROR_DEVICE_ERROR ==>
          GaveUp(s0, Now(), i, data[..count] + lost, at.reliable)
        decreases success, left, start + SOCKET_TIMEOUT - at.clock
      {
        var turn;
        ghost var taken;
        turn, taken := RecvTracked(i, data, count, left, start, s0, good, old(at.commands), size);
        match turn {
          case Got(n) =>
            count := count + n;
            left := left - n;
          case Waited =>
          case Failed =>
            success := false;
            lost := taken;
          case Expired =>
            if count == 0 {
              result := NSAPI_ERROR_WOULD_BLOCK;
              success := false;
            }
            left := 0;
        }
      }
      got := count;
      assert data[..count] + [] == data[..count];
      if success {
        result := count;
      }
    }

    // UDP: one datagram at most, so no more than one USORF goes out.
    method SocketRecvFrom(i: nat, data: array<byte>, size: nat)
        returns (result: int, ghost got: nat, ghost lost: seq<byte>)
      requires Valid() && i < SLOTS && size <= data.Length
      modifies this, sockets, at`modem, at`commands, at`clock, data
      ensures atTimeout == old(atTimeout) && lockDepth == old(lockDepth)
      ensures 0 <= result <= size || result in {NSAPI_ERROR_DEVICE_ERROR, NSAPI_ERROR_WOULD_BLOCK}
      ensures result == 0 ==> size == 0
      ensures result == NSAPI_ERROR_WOULD_BLOCK ==>
        at.clock >= old(at.clock) + 1000 && sockets[i].pending == 0 && at.commands == old(at.commands)
      ensures old(at.commands) <= at.commands
      ensures old(Good()) || 0 <= result <= 1024 ==> |at.commands| <= |old(at.commands)| + 1
      ensures got <= size && (result != NSAPI_ERROR_DEVICE_ERROR ==> got == Max(result, 0) && lost == [])
      ensures forall k :: got <= k < data.Length ==> data[k] == old(data[k])
      ensures old(Good()) ==> Inv(Now()) && (at.reliable || result != NSAPI_ERROR_DEVICE_ERROR ==> Good())
      ensures old(Good()) ==> Took(old(at.modem), at.modem, old(sockets[i].handle), data[..got] + lost)
      ensures old(Good()) && at.reliable && result == NSAPI_ERROR_DEVICE_ERROR ==>
        old(sockets[i].handle) !in at.modem.queues || sockets[i].handle == UNUSED
      ensures old(Good()) && result >= 0 ==>
        Begun(old(Now()), i, old(at.commands), at.commands, at.generous, size, result)
      ensures old(Good()) && old(sockets[i].pending) > 0 && result == NSAPI_ERROR_WOULD_BLOCK ==>
        sockets[i].handle == UNUSED
      ensures old(Good()) && at.prompt && result == NSAPI_ERROR_WOULD_BLOCK && sockets[i].handle != UNUSED ==>
        NothingUnread(old(Now()), i)
      ensures old(Good()) ==> result <= 1024
    {
      ghost var s0, good, h := Now(), Good(), sockets[i].handle;
      result, lost := NSAPI_ERROR_DEVICE_ERROR, [];
      var success, left, count, start := true, size, 0, at.clock;
      if good {
        TookNothing(s0.modem, s0.modem, h);
      }
      while success && left > 0
        invariant atTimeout == old(atTimeout) && lockDepth == old(lockDepth)
        invariant 0 <= count && 0 <= left && count + left <= size && (success ==> result == NSAPI_ERROR_DEVICE_ERROR)
        invariant !success ==> result == NSAPI_ERROR_DEVICE_ERROR || (result == NSAPI_ERROR_WOULD_BLOCK && count == 0)
        invariant forall k :: count <= k < data.Length ==> data[k] == old(data[k])
        invariant old(at.commands) <= at.commands && (good ==> count <= MAX_READ_SIZE)
        invariant |at.commands| <= |old(at.commands)| + 1 || count > MAX_READ_SIZE
        invariant success ==>
          if count == 0 then at.commands == old(at.commands) else left == 0 || count > MAX_READ_SIZE
        invariant result == NSAPI_ERROR_WOULD_BLOCK ==>
          at.clock >= start + SOCKET_TIMEOUT && sockets[i].pending == 0 && at.commands == old(at.commands)
        invariant count == 0 && left == 0 && success ==> size == 0
        invariant success || result == NSAPI_ERROR_WOULD_BLOCK ==> lost == []
        invariant count == 0 && left > 0 ==> left == size
        invariant success && count == 0 ==> CaughtUp(start)
        invariant good && at.prompt && result == NSAPI_ERROR_WOULD_BLOCK && sockets[i].handle != UNUSED ==>
          NothingUnread(s0, i)
        invariant good && (success || result == NSAPI_ERROR_WOULD_BLOCK) ==>
          UnderWay(s0, Now(), i, data[..count], old(at.commands), at.commands, at.generous, size)
        invariant good && !success && result == NSAPI_ERROR_DEVICE_ERROR ==>
          GaveUp(s0, Now(), i, data[..count] + lost, at.reliable)
        decreases success, left, start + SOCKET_TIMEOUT - at.clock
      {
        var readBlk := Min(MAX_READ_SIZE, left);
        var turn;
        ghost var taken;
        turn, taken := RecvTracked(i, data, count, left, start, s0, good, old(at.commands), size);
        match turn {
          case Got(n) =>
            count := count + n;
            left := left - n;
            if n < readBlk || n == MAX_READ_SIZE {
              left := 0;
            }
          case Waited =>
          case Failed =>
            success := false;
            lost := taken;
          case Expired =>
            if count == 0 {
              result := NSAPI_ERROR_WOULD_BLOCK;
              success := false;
            }
            left := 0;
        }
      }
      got := count;
      assert data[..count] + [] == data[..count];
      if success {
        result := count;
      }
    }

    method SocketAttach(i: nat, callback: Option<nat>)
      requires Valid() && i < SLOTS
      modifies sockets
      ensures sockets[..] == old(sockets[..])[i := old(sockets[i]).(callback := callback)]
      ensures old(Good()) ==> Good()
    {
      ghost var s := Now();
      sockets[i] := sockets[i].(callback := callback);
      if Inv(s) {
        AttachKeepsInv(s, i, callback);
        assert Now() == Apply(s, Attach(i, callback));
      }
    }

    // The modem serves USOCR with a handle of its own choice.
    method ServeCreate(proto: int) returns (served: bool, ghost r: Msg)
      requires Valid()
      modifies at`modem, at`kinds
      ensures old(Good()) && served ==> at.kinds == old(at.kinds)[r.handle := proto]
      ensures old(Good()) && served ==>
        && r.CreateReply? && Enabled(old(Now()), Create(r.handle)) && Now() == Apply(old(Now()), Create(r.handle))
        && Expecting(r) && KeepsClosed(old(at.modem), at.modem)
      ensures old(Good()) && !served ==> at.modem == old(at.modem) && !at.grants
    {
      ghost var s := Now();
      r := FREE_REPLY;
      if !at.honest {
        served := *;
        at.modem, at.kinds := *, *;
      } else {
        var h: int := *;
        if at.grants && (h in at.modem.queues || h == UNUSED) {
          h := FreeNumber(at.modem.queues.Keys);
        }
        var t := Create(h);
        served := h !in at.modem.queues && h != UNUSED && SaneModem(at.modem);
        if served {
          r := CreateReply(h);
          if Good() {
            ModemStepKeepsInv(s, t);
            StepKeepsClosed(s, t);
            WaitingAppend(at.modem.channel, r);
          }
          at.modem := Apply(State(sockets[..], at.modem), t).modem;
          at.kinds := at.kinds[h := proto];
        }
      }
    }

    method ServeClose(h: int) returns (served: bool, ghost r: Msg)
      requires Valid()
      modifies at`modem
      ensures old(Good()) && served ==>
        && r == CloseReply(h) && Enabled(old(Now()), Close(h)) && Now() == Apply(old(Now()), Close(h))
        && Expecting(r)
      ensures old(Good()) && !served ==> at.modem == old(at.modem) && h !in at.modem.queues
    {
      ghost var s := Now();
      r := FREE_REPLY;
      if !at.honest {
        served := *;
        at.modem := *;
      } else {
        var t := Close(h);
        served := h in at.modem.queues && SaneModem(at.modem);
        if served {
          r := CloseReply(h);
          if Good() {
            ModemStepKeepsInv(s, t);
            WaitingAppend(at.modem.channel, r);
          }
          at.modem := Apply(State(sockets[..], at.modem), t).modem;
        }
      }
    }

    // Sends USOCR and waits for the handle; the reply is left at the front of the channel.
    method CreateExchange(proto: int, port: Option<nat>) returns (sent: bool, ok: bool)
      requires Valid()
      modifies sockets, at`modem, at`commands, at`clock, at`kinds
      ensures at.commands == old(at.commands) + if sent then [Usocr(proto, port)] else []
      ensures (ok ==> sent) && (at.reliable ==> sent)
      ensures ok ==> at.modem.channel != [] && at.modem.channel[0].CreateReply?
      ensures old(Good()) ==> Inv(Now()) && OnlyFreed(old(sockets[..]), sockets[..]) && (at.reliable && !ok ==> Good())
      ensures old(Good()) && at.reliable && at.grants ==> ok
      ensures old(Good()) && ok ==> Quiet(at.modem.channel[1..]) && KeepsClosed(old(at.modem), at.modem)
      ensures old(Good()) && ok ==> at.kinds == old(at.kinds)[at.modem.channel[0].handle := proto]
      ensures old(Good()) && ok ==> at.modem.queues.Keys <= old(at.modem.queues.Keys) + {at.modem.channel[0].handle}
    {
      ghost var good := Good();
      Environment();
      sent, ok := *, false;
      sent := sent || at.reliable;
      if sent {
        at.commands := at.commands + [Usocr(proto, port)];
        ghost var r;
        ok, r := ServeCreate(proto);
        if ok {
          ghost var c := at.modem.channel;
          Environment();
          if good {
            WaitingExtends(c, at.modem.channel, r);
          }
          ok := RecvReply(WantCreate, r, UNUSED);
        }
      }
    }

    // Sends USOCL for slot `i` and frees it when the modem agrees.
    method CloseExchange(i: nat) returns (ok: bool)
      requires Valid() && i < SLOTS
      modifies sockets, at`modem, at`commands, at`clock
      ensures SentAtMost(old(at.commands), at.commands, Usocl(old(sockets[i].handle)))
      ensures old(Good()) ==> Inv(Now()) && OnlyFreed(old(sockets[..]), sockets[..]) && (at.reliable ==> Good())
      ensures ok ==> sockets[i] == Slot(-1, 0, None)
      ensures ok ==> at.commands == old(at.commands) + [Usocl(old(sockets[i].handle))]
      ensures old(Good()) && ok ==>
        && Good() && old(sockets[i].handle) !in at.modem.queues && Find(sockets[..], old(sockets[i].handle)) == None
      ensures old(Good()) && ok ==> old(sockets[i].handle) != UNUSED && ClosedBefore(at.modem, old(sockets[i].handle))
      ensures old(Good()) && ok ==> at.modem.queues.Keys <= old(at.modem.queues.Keys)
      ensures old(Good()) && at.reliable && !ok ==> old(sockets[i].handle) !in at.modem.queues
    {
      var h := sockets[i].handle;
      ghost var good, s0 := Good(), Now();
      Environment();
      ok := *;
      ok := ok || at.reliable;
      if ok {
        at.commands := at.commands + [Usocl(h)];
        ghost var r, s1 := FREE_REPLY, Now();
        ok, r := ServeClose(h);
        if ok {
          ghost var s2 := Now();
          Environment();
          ghost var s3 := Now();
          if good {
            WaitingExtends(s2.modem.channel, s3.modem.channel, r);
          }
          ok := RecvReply(WantClose, r, UNUSED);
          if ok {
            ghost var s4 := Now();
            at.modem := Popped(at.modem);
            sockets[i] := FREE;
            if good {
              CloseAccounted(s0, s1, s2, s3, s4, i, h, r);
              assert Now() == Apply(s4, TakeClose(i));
            }
          }
        }
      }
    }

    method SocketOpen(proto: Protocol) returns (err: int, handle: nat)
      requires Valid()
      modifies this, sockets, at`modem, at`commands, at`clock, at`kinds
      ensures lockDepth == old(lockDepth) && atTimeout == old(atTimeout)
      ensures err == NSAPI_ERROR_NO_MEMORY <==> Find(old(sockets[..]), UNUSED) == None
      ensures err in {NSAPI_ERROR_NO_MEMORY, NSAPI_ERROR_UNSUPPORTED} ==>
        at.commands == old(at.commands) && at.modem == old(at.modem) && sockets[..] == old(sockets[..])
      ensures err == NSAPI_ERROR_UNSUPPORTED <==> proto == Other && Find(old(sockets[..]), UNUSED) != None
      ensures err in {NSAPI_ERROR_OK, NSAPI_ERROR_NO_SOCKET} ==>
        at.commands == old(at.commands) + [Usocr(if proto == Udp then 17 else 6, None)]
      ensures err !in {NSAPI_ERROR_OK, NSAPI_ERROR_NO_SOCKET} ==>
        && at.commands == old(at.commands)
        && err in {NSAPI_ERROR_NO_MEMORY, NSAPI_ERROR_UNSUPPORTED, NSAPI_ERROR_DEVICE_ERROR}
      ensures at.reliable ==> err != NSAPI_ERROR_DEVICE_ERROR
      ensures old(Good()) && at.reliable && at.grants ==> err != NSAPI_ERROR_NO_SOCKET
      ensures err == NSAPI_ERROR_OK ==>
        && Find(old(sockets[..]), UNUSED) == Some(handle) && handle < SLOTS
        && sockets[handle] == Slot(sockets[handle].handle, 0, None)
      ensures old(Good()) ==> Inv(Now()) && (at.reliable ==> Good())
      ensures old(Good()) && err == NSAPI_ERROR_OK ==>
        && Good() && sockets[handle].handle != UNUSED
        && at.kinds == old(at.kinds)[sockets[handle].handle := if proto == Udp then 17 else 6]
        && OnlyFreed(old(sockets[..])[handle := sockets[handle]], sockets[..])
    {
      ghost var good, s0 := Good(), Now();
      lockDepth := lockDepth + 1;
      err, handle := NSAPI_ERROR_DEVICE_ERROR, 0;
      var socket := FindSocket(UNUSED);
      if socket.Some? {
        var i := socket.value;
        if proto == Other {
          err := NSAPI_ERROR_UNSUPPORTED;
        } else {
          var sent, ok := CreateExchange(if proto == Udp then 17 else 6, None);
          if sent {
            err := NSAPI_ERROR_NO_SOCKET;
          }
          assert good && ok ==> SaneMsg(at.modem.channel[0]);
          if ok && at.modem.channel[0].handle != UNUSED {
            ghost var s4 := Now();
            if good {
              StepKeepsInv(s4, TakeCreate(i));
              assert SaneMsg(s4.modem.channel[0]);
            }
            var h := at.modem.channel[0].handle;
            at.modem := Popped(at.modem);
            sockets[i] := Slot(h, 0, None);
            assert good ==> Now() == Apply(s4, TakeCreate(i));
            handle := i;
            err := NSAPI_ERROR_OK;
          }
        }
      } else {
        err := NSAPI_ERROR_NO_MEMORY;
      }
      lockDepth := lockDepth - 1;
    }

    method SocketClose(i: nat) returns (err: int)
      requires Valid() && i < SLOTS
      modifies this, sockets, at`modem, at`commands, at`clock
      ensures lockDepth == old(lockDepth) && atTimeout == old(atTimeout)
      ensures err in {NSAPI_ERROR_OK, NSAPI_ERROR_DEVICE_ERROR}
      ensures SentAtMost(old(at.commands), at.commands, Usocl(old(sockets[i].handle)))
      ensures err == NSAPI_ERROR_OK ==>
        sockets[i] == Slot(-1, 0, None) && at.commands == old(at.commands) + [Usocl(old(sockets[i].handle))]
      ensures old(Good()) && at.reliable && err != NSAPI_ERROR_OK ==> old(sockets[i].handle) !in at.modem.queues
      ensures old(Good()) ==> Inv(Now()) && (at.reliable ==> Good())
      ensures old(Good()) && err == NSAPI_ERROR_OK ==>
        Good() && old(sockets[i].handle) !in at.modem.queues && OnlyFreed(old(sockets[..]), sockets[..])
    {
      lockDepth := lockDepth + 1;
      err := NSAPI_ERROR_DEVICE_ERROR;
      var ok := CloseExchange(i);
      if ok {
        err := NSAPI_ERROR_OK;
      }
      lockDepth := lockDepth - 1;
    }

    // Creates a socket on a port for slot `i`, which was closed, and puts the saved `copy` back into it.
    method Reopen(i: nat, copy: Slot, proto: int, port: nat) returns (ok: bool, ghost reissued: int)
      requires Valid() && i < SLOTS
      modifies sockets, at`modem, at`commands, at`clock, at`kinds
      ensures ok ==> sockets[i] == copy && at.commands == old(at.commands) + [Usocr(proto, Some(port))]
      ensures old(Good()) && at.reliable && at.grants ==> ok
      ensures old(Good()) && ok ==> at.modem.queues.Keys <= old(at.modem.queues.Keys) + {reissued}
      ensures old(Good()) && ok ==> at.kinds == old(at.kinds)[reissued := proto]
      ensures old(Good() && ClosedFor(Now(), i, copy)) ==>
        && (!ok ==> Inv(Now()) && sockets[i].handle == UNUSED)
        && (ok ==> (Good() <==> RightToBind(reissued, at.modem.channel, copy)))
    {
      ghost var good := Good();
      ghost var closed := good && ClosedFor(Now(), i, copy);
      reissued := UNUSED;
      var _, created := CreateExchange(proto, Some(port));
      assert good && created ==> SaneMsg(at.modem.channel[0]);
      ok := created && at.modem.channel[0].handle != UNUSED;
      if ok {
        ghost var s4 := Now();
        reissued := at.modem.channel[0].handle;
        if closed {
          BindIsRightIff(s4, i, copy);
        }
        at.modem := Popped(at.modem);
        sockets[i] := copy;
        assert Now() == Rebound(s4, i, copy);
      }
    }

    // Closes slot `i` and creates a socket on a port for it, with the slot as it was.
    method CloseAndReopen(i: nat, kind: int, port: nat) returns (err: int, ghost reissued: int)
      requires Valid() && i < SLOTS
      modifies sockets, at`modem, at`commands, at`clock, at`kinds
      ensures err in {NSAPI_ERROR_OK, NSAPI_ERROR_DEVICE_ERROR, NSAPI_ERROR_CONNECTION_LOST}
      ensures err == NSAPI_ERROR_OK ==> sockets[i] == old(sockets[i])
      ensures err == NSAPI_ERROR_OK ==>
        at.commands == old(at.commands) + [Usocl(old(sockets[i].handle)), Usocr(kind, Some(port))]
      ensures old(Good()) && err != NSAPI_ERROR_OK ==> Inv(Now())
      ensures old(Good()) && err == NSAPI_ERROR_DEVICE_ERROR ==> sockets[i].handle in {old(sockets[i].handle), UNUSED}
      ensures old(Good()) && err == NSAPI_ERROR_CONNECTION_LOST ==> sockets[i].handle == UNUSED
      ensures old(Good()) && at.reliable && at.grants && err != NSAPI_ERROR_OK ==>
        old(sockets[i].handle) !in at.modem.queues
      ensures old(Good()) && err == NSAPI_ERROR_OK ==>
        && old(sockets[i].handle) != UNUSED && at.kinds == old(at.kinds)[reissued := kind]
        && at.modem.queues.Keys <= old(at.modem.queues.Keys) - {old(sockets[i].handle)} + {reissued}
        && (Good() <==> RightToBind(reissued, at.modem.channel, old(sockets[i])))
    {
      var copy := sockets[i];
      err, reissued := NSAPI_ERROR_DEVICE_ERROR, UNUSED;
      var ok := CloseExchange(i);
      if ok {
        err := NSAPI_ERROR_CONNECTION_LOST;
        ok, reissued := Reopen(i, copy, kind, port);
        if ok {
          err := NSAPI_ERROR_OK;
        }
      }
    }

    // Closes and reopens the socket with a port; `reissued` is the handle the modem gave it.
    method SocketBind(i: nat, port: nat)
        returns (err: int, ghost saved: Slot, ghost proto: int, ghost reissued: int)
      requires Valid() && i < SLOTS
      modifies this, sockets, at`modem, at`commands, at`clock, at`kinds
      ensures lockDepth == old(lockDepth) && atTimeout == old(atTimeout)
      ensures err == NSAPI_ERROR_OK ==> sockets[i] == saved
      ensures err == NSAPI_ERROR_OK ==>
        at.commands == old(at.commands) +
                       [Usoctl(old(sockets[i].handle)), Usocl(saved.handle), Usocr(proto, Some(port))]
      ensures old(Good()) && err != NSAPI_ERROR_OK ==> Inv(Now())
      ensures old(Good()) && err == NSAPI_ERROR_CONNECTION_LOST ==> sockets[i].handle == UNUSED
      ensures old(Good()) && at.reliable && at.grants && err != NSAPI_ERROR_OK ==>
        old(sockets[i].handle) !in at.modem.queues || sockets[i].handle == UNUSED
      ensures old(Good()) && err == NSAPI_ERROR_OK ==>
        && saved.handle == old(sockets[i].handle) != UNUSED
        && at.modem.queues.Keys <= old(at.modem.queues.Keys) - {saved.handle} + {reissued}
        && (saved.handle in old(at.kinds) ==> proto == old(at.kinds)[saved.handle])
        && at.kinds == old(at.kinds)[reissued := proto]
        && (Good() <==> RightToBind(reissued, at.modem.channel, saved))
    {
      lockDepth := lockDepth + 1;
      err, saved, proto, reissued := NSAPI_ERROR_NO_SOCKET, FREE, 0, UNUSED;
      var h := sockets[i].handle;
      at.commands := at.commands + [Usoctl(h)];
      var kind: int := *;
      if at.honest && h in at.kinds {
        kind := at.kinds[h];
      }
      var answered := *;
      if answered || (at.reliable && h in at.modem.queues) {
        proto := kind;
        // A URC handled before the copy is taken may already have freed the slot.
        Pump();
        saved := sockets[i];
        err, reissued := CloseAndReopen(i, kind, port);
      }
      lockDepth := lockDepth - 1;
    }
  }
}
