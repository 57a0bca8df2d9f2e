/** One exchange with the modem: what the network may do meanwhile, and what the host makes of the reply. */
module AtExchange {
  import opened Bytes
  import opened SocketProtocol

  /** The kind of reply a `recv` waits for; other replies are skipped. */
  datatype Want = WantRead | WantCreate | WantClose

  predicate Matches(want: Want, m: Msg)
  {
    match want
    case WantRead => m.ReadReply?
    case WantCreate => m.CreateReply?
    case WantClose => m.CloseReply?
  }

  /** No reply is outstanding. */
  predicate Quiet(channel: seq<Msg>)
  {
    forall i :: 0 <= i < |channel| ==> channel[i].IsUrc()
  }

  /** The one reply outstanding is `r`. */
  predicate Waiting(channel: seq<Msg>, r: Msg)
  {
    !r.IsUrc() && exists n :: 0 <= n < |channel| && channel[n] == r && Quiet(channel[..n]) && Quiet(channel[n + 1..])
  }

  /** What may happen at the modem while the host is not asking: URCs queue up, handles go, bytes come. */
  ghost predicate Drifts(m: Modem, m': Modem)
  {
    && m'.queues.Keys <= m.queues.Keys
    && (forall h :: h in m'.queues ==> h in m.taken && h in m.arrived && h in m'.taken && h in m'.arrived)
    && (forall h :: h in m'.queues ==> m'.taken[h] == m.taken[h] && m.arrived[h] <= m'.arrived[h])
  }

  /** Whatever was closed before all that is on its way still is. */
  ghost predicate KeepsClosed(m: Modem, m': Modem)
  {
    forall h :: h != UNUSED && ClosedBefore(m, h) ==> ClosedBefore(m', h)
  }

  /** Slots keep their handle or are freed. */
  predicate OnlyFreed(slots: seq<Slot>, slots': seq<Slot>)
  {
    |slots'| == |slots| && forall i :: 0 <= i < |slots| ==> slots'[i].handle in {slots[i].handle, UNUSED}
  }

  /** A slot that shows pending bytes still does, or has been freed. */
  predicate KeepsPending(slots: seq<Slot>, slots': seq<Slot>)
  {
    && |slots'| == |slots|
    && forall i :: 0 <= i < |slots| && slots[i].pending > 0 ==> slots'[i].pending > 0 || slots'[i].handle == UNUSED
  }

  /** What waiting does: the network drifts, slots are freed or keep their handle and what they show. */
  ghost predicate Idled(s: State, s': State)
  {
    Drifts(s.modem, s'.modem) && OnlyFreed(s.slots, s'.slots) && KeepsPending(s.slots, s'.slots)
  }

  lemma IdledOn(s0: State, s1: State, s2: State)
    requires Idled(s0, s1) && Idled(s1, s2)
    ensures Idled(s0, s2)
  {
  }

  lemma UrcKeepsPending(slots: seq<Slot>, m: Msg)
    requires m.IsUrc() && SaneMsg(m)
    ensures KeepsPending(slots, Handle(slots, m))
  {
  }

  /** The channel grew by URCs only. */
  predicate Extends(channel: seq<Msg>, channel': seq<Msg>)
  {
    channel <= channel' && Quiet(channel'[|channel|..])
  }

  predicate IsEnvironment(t: Step)
  {
    t.Arrive? || t.RemoteClose? || t.Lose?
  }

  lemma DriftsOn(m0: Modem, m1: Modem, m2: Modem)
    requires Drifts(m0, m1) && Extends(m0.channel, m1.channel) && Drifts(m1, m2) && Extends(m1.channel, m2.channel)
    requires KeepsClosed(m0, m1) && KeepsClosed(m1, m2)
    ensures Drifts(m0, m2) && Extends(m0.channel, m2.channel) && KeepsClosed(m0, m2)
  {
    var n := |m0.channel|;
    assert m2.channel[n..] == m1.channel[n..] + m2.channel[|m1.channel|..];
  }

  lemma WaitingExtends(channel: seq<Msg>, channel': seq<Msg>, r: Msg)
    requires Waiting(channel, r) && Extends(channel, channel')
    ensures Waiting(channel', r)
  {
  }

  lemma WaitingPop(channel: seq<Msg>, r: Msg)
    requires Waiting(channel, r)
    ensures channel != []
    ensures channel[0].IsUrc() ==> Waiting(channel[1..], r)
    ensures !channel[0].IsUrc() ==> channel[0] == r && Quiet(channel[1..])
  {
    var n :| 0 <= n < |channel| && channel[n] == r && Quiet(channel[..n]) && Quiet(channel[n + 1..]);
    if n > 0 {
      assert channel[..n][0] == channel[0];
      var rest := channel[1..];
      assert rest[n - 1] == r && rest[..n - 1] == channel[..n][1..] && rest[n..] == channel[n + 1..];
    }
  }

  lemma WaitingAppend(channel: seq<Msg>, r: Msg)
    requires Quiet(channel) && !r.IsUrc()
    ensures Waiting(channel + [r], r)
  {
    var c := channel + [r];
    assert c[|channel|] == r && c[..|channel|] == channel && c[|channel| + 1..] == [];
  }

  const FREE_REPLY := CloseReply(UNUSED)

  /** The host has caught up with part of the channel, as far as `h` is concerned. */
  predicate Caught(s: State, s': State, h: int)
  {
    var n := |s.modem.channel| - |s'.modem.channel|;
    && n >= 0 && s'.modem.channel == s.modem.channel[n..]
    && ViewOf(s'.slots, h) == Replay(ViewOf(s.slots, h), h, s.modem.channel[..n])
  }

  /** Since `s`, the host has only run URC handlers, and `r` is still to come. */
  ghost predicate Receiving(s: State, s': State, r: Msg, h: int)
  {
    && Inv(s') && Waiting(s'.modem.channel, r) && s'.modem == s.modem.(channel := s'.modem.channel)
    && OnlyFreed(s.slots, s'.slots) && KeepsClosed(s.modem, s'.modem)
    && (h != UNUSED ==> Caught(s, s', h))
  }

  lemma ReceivingStep(s: State, mid: State, s': State, r: Msg, h: int)
    requires Receiving(s, mid, r, h) && Inv(s')
    requires mid.modem.channel != [] && mid.modem.channel[0].IsUrc()
    requires s' == State(Handle(mid.slots, mid.modem.channel[0]), Popped(mid.modem)) && KeepsClosed(mid.modem, s'.modem)
    ensures Receiving(s, s', r, h)
  {
    var n, m := |s.modem.channel| - |mid.modem.channel|, mid.modem.channel[0];
    WaitingPop(mid.modem.channel, r);
    if h != UNUSED {
      assert SaneMsg(m);
      HandleFollowsView(mid.slots, m, h);
      assert s.modem.channel[..n + 1] == s.modem.channel[..n] + [m];
      ReplayAppend(ViewOf(s.slots, h), h, s.modem.channel[..n], m);
    }
  }

  /** Steps of the modem and URC handlers leave what was closed before all that is on its way. */
  lemma StepKeepsClosed(s: State, t: Step)
    requires |s.slots| == SLOTS && SaneModem(s.modem) && Enabled(s, t) && (IsModemStep(t) || t.Urc?)
    ensures KeepsClosed(s.modem, Apply(s, t).modem)
  {
    forall h | h != UNUSED && ClosedBefore(s.modem, h) ensures ClosedBefore(Apply(s, t).modem, h) {
      ClosedBeforeStays(s, t, h);
    }
  }

  lemma EnvironmentStep(s: State, t: Step)
    requires |s.slots| == SLOTS && SaneModem(s.modem) && IsEnvironment(t) && Enabled(s, t)
    ensures Drifts(s.modem, Apply(s, t).modem) && Extends(s.modem.channel, Apply(s, t).modem.channel)
    ensures Inv(s) ==> Inv(Apply(s, t))
    ensures Apply(s, t).slots == s.slots && KeepsClosed(s.modem, Apply(s, t).modem)
  {
    StepKeepsClosed(s, t);
    if Inv(s) {
      ModemStepKeepsInv(s, t);
    }
  }

  /** One read of handle `h` gave `data`; apart from that the modem drifted. */
  ghost predicate Took(m: Modem, m': Modem, h: int, data: seq<byte>)
  {
    && m'.queues.Keys <= m.queues.Keys
    && (forall g :: g in m'.queues ==> g in m.taken && g in m.arrived && g in m'.taken && g in m'.arrived)
    && (forall g :: g in m'.queues ==>
          m'.taken[g] == m.taken[g] + (if g == h then data else []) && m.arrived[g] <= m'.arrived[g])
  }

  lemma StillOwned(slots: seq<Slot>, slots': seq<Slot>, i: nat, h: int)
    requires Distinct(slots) && OnlyFreed(slots, slots') && i < |slots| && slots[i].handle == h && h != UNUSED
    ensures OwnsOrLost(slots', i, h)
  {
  }

  /** A read for a socket that still shows pending bytes, and survives the exchange, gets some. */
  lemma {:induction false} ReadIsFruitful(s1: State, s3: State, s4: State, i: nat, h: int, r: Msg)
    requires Inv(s1) && Quiet(s1.modem.channel) && i < SLOTS && s1.slots[i].handle == h != UNUSED
    requires s1.slots[i].pending > 0
    requires s3.slots == s1.slots && !r.IsUrc() && Extends(s1.modem.channel + [r], s3.modem.channel)
    requires Caught(s3, s4, h) && s4.modem.channel != [] && s4.modem.channel[0] == r
    requires |s4.slots| == SLOTS && s4.slots[i].handle == h
    ensures h in s1.modem.queues && s1.modem.queues[h] != []
  {
    var c1, c3 := s1.modem.channel, s3.modem.channel;
    var n := |c3| - |s4.modem.channel|;
    assert c3[n] == r;
    assert c3[|c1|] == (c1 + [r])[|c1|] && c3[..|c1|] == c1;
    forall k | 0 <= k < |c3| && k != |c1| ensures c3[k].IsUrc() {
      if k < |c1| {
        assert c3[k] == c1[k];
      } else {
        assert c3[k] == c3[|c1| + 1..][k - |c1| - 1];
      }
    }
    assert n == |c1|;
    assert Consistent(s1, h);
    assert Find(s1.slots, h) == Some(i);
    StaysPositive(s1.slots[i].pending, h, c1);
  }

  lemma TookOnce(m0: Modem, s1: State, s2: State, m3: Modem, h: int, data: seq<byte>)
    requires |s1.slots| == SLOTS && SaneModem(s1.modem) && h in s1.modem.queues && |data| <= |s1.modem.queues[h]|
    requires s2 == Apply(s1, Read(h, |data|)) && data == s1.modem.queues[h][..|data|]
    requires Drifts(m0, s1.modem) && Drifts(s2.modem, m3)
    ensures Took(m0, m3, h, data)
  {
  }

  lemma TookNothing(m: Modem, m': Modem, h: int)
    requires Drifts(m, m')
    ensures Took(m, m', h, [])
  {
  }

  lemma TookTwice(m0: Modem, m1: Modem, m2: Modem, h: int, a: seq<byte>, b: seq<byte>)
    requires Took(m0, m1, h, a) && Took(m1, m2, h, b)
    ensures Took(m0, m2, h, a + b)
  {
  }

  lemma TookLater(m0: Modem, m1: Modem, m2: Modem, h: int, data: seq<byte>)
    requires Took(m0, m1, UNUSED, []) && (Took(m1, m2, h, data) || (Took(m1, m2, UNUSED, []) && data == []))
    requires UNUSED !in m0.queues
    ensures Took(m0, m2, h, data)
  {
  }

  /** As long as nothing is read from a handle, its unread bytes can only become more. */
  lemma {:induction false} UnreadGrows(m: Modem, m': Modem, h: int)
    requires SaneModem(m) && SaneModem(m') && Took(m, m', h, []) && h in m'.queues
    ensures h in m.queues && m.queues[h] <= m'.queues[h]
  {
    var t, q, q' := m.taken[h], m.queues[h], m'.queues[h];
    assert m'.taken[h] == t;
    assert m.arrived[h] == t + q && m'.arrived[h] == t + q' && t + q <= t + q';
    assert q == (t + q)[|t|..] && q' == (t + q')[|t|..];
  }

  /** So a read that gives all that is asked for gives at least what was unread before. */
  lemma {:induction false} AllAskedFor(m: Modem, m': Modem, h: int, length: nat)
    requires SaneModem(m) && SaneModem(m') && Took(m, m', h, []) && h in m'.queues
    ensures h in m.queues && Min(length, |m.queues[h]|) <= Min(length, |m'.queues[h]|)
  {
    UnreadGrows(m, m', h);
  }

  /** So far `got` was read for slot `i`, which at worst has been freed since. */
  ghost predicate Received(s0: State, s: State, i: nat, got: seq<byte>)
    requires i < |s0.slots| && i < |s.slots|
  {
    && Inv(s) && Quiet(s.modem.channel)
    && s.slots[i].handle in {s0.slots[i].handle, UNUSED}
    && Took(s0.modem, s.modem, s0.slots[i].handle, got)
  }

  /** The socket of slot `i` is open and has no unread bytes. */
  ghost predicate NothingUnread(s: State, i: nat)
    requires i < |s.slots|
  {
    var h := s.slots[i].handle;
    h in s.modem.queues && s.modem.queues[h] == []
  }

  /** When nothing is on its way, nothing shows as pending, and nothing was read since `s0`, there was
      nothing to read. */
  lemma {:induction false} AllDelivered(s0: State, s: State, i: nat)
    requires i < SLOTS == |s0.slots| == |s.slots| && SaneModem(s0.modem) && Received(s0, s, i, [])
    requires s.modem.channel == [] && s.slots[i].pending == 0 && s.slots[i].handle != UNUSED
    ensures NothingUnread(s0, i)
  {
    var h := s.slots[i].handle;
    assert Consistent(s, h);
    assert Find(s.slots, h) == Some(i);
    UnreadGrows(s0.modem, s.modem, h);
  }

  /** A read for slot `i` failed after `got` had been read: on a reliable link, only if the handle is gone. */
  ghost predicate GaveUp(s0: State, s: State, i: nat, got: seq<byte>, reliable: bool)
    requires i < |s0.slots| && i < |s.slots|
  {
    && Inv(s) && Took(s0.modem, s.modem, s0.slots[i].handle, got)
    && (reliable ==>
          && Quiet(s.modem.channel)
          && (s0.slots[i].handle !in s.modem.queues || s.slots[i].handle == UNUSED))
  }

  /** What the slot has received so far, and one more reply, or one that was lost. */
  lemma TookMore(s0: State, s1: State, m2: Modem, i: nat, before: seq<byte>, more: seq<byte>)
    requires i < SLOTS == |s0.slots| == |s1.slots| && Received(s0, s1, i, before)
    requires Took(s1.modem, m2, s1.slots[i].handle, more) && (s1.slots[i].handle == UNUSED ==> more == [])
    ensures Took(s0.modem, m2, s0.slots[i].handle, before + more)
  {
    var h := s0.slots[i].handle;
    assert Took(s1.modem, m2, h, more);
    TookTwice(s0.modem, s1.modem, m2, h, before, more);
  }

  lemma ReceivedMore(s0: State, s1: State, s2: State, i: nat, before: seq<byte>, more: seq<byte>)
    requires i < SLOTS == |s0.slots| && Inv(s2) && Quiet(s2.modem.channel) && |s1.slots| == SLOTS
    requires Received(s0, s1, i, before) && s2.slots[i].handle in {s1.slots[i].handle, UNUSED}
    requires Took(s1.modem, s2.modem, s1.slots[i].handle, more)
    requires s1.slots[i].handle == UNUSED ==> more == []
    ensures Received(s0, s2, i, before + more)
  {
    TookMore(s0, s1, s2.modem, i, before, more);
  }

  /** Accounting for the reply at the front ends in step, with slots at most freed. */
  lemma {:induction false} ReadSettles(s0: State, s3: State, s4: State, i: nat, h: int, r: Msg)
    requires Inv(s3) && |s0.slots| == SLOTS && Distinct(s0.slots) && i < SLOTS && h == s0.slots[i].handle != UNUSED
    requires s3.slots == s0.slots && r.ReadReply? && r.handle == h
    requires Receiving(s3, s4, r, h) && s4.modem.channel[0] == r && Quiet(s4.modem.channel[1..])
    ensures Enabled(s4, TakeRead(i))
    ensures var s5 := Apply(s4, TakeRead(i)); Inv(s5) && Quiet(s5.modem.channel) && OnlyFreed(s0.slots, s5.slots)
  {
    StillOwned(s3.slots, s4.slots, i, h);
    StepKeepsInv(s4, TakeRead(i));
  }

  /** Whether or not its reply gets through, a read that is served takes the front of the unread bytes. */
  lemma {:induction false} ReadTook(s0: State, s1: State, s2: State, m3: Modem, h: int, r: Msg)
    requires |s1.slots| == SLOTS && SaneModem(s1.modem) && Drifts(s0.modem, s1.modem)
    requires r.ReadReply? && r.handle == h && h in s1.modem.queues && |r.data| <= |s1.modem.queues[h]|
    requires s2 == Apply(s1, Read(h, |r.data|)) && s2.modem.channel == s1.modem.channel + [r]
    requires Drifts(s2.modem, m3)
    ensures Took(s0.modem, m3, h, r.data)
  {
    assert s2.modem.channel[|s1.modem.channel|] == r;
    TookOnce(s0.modem, s1, s2, m3, h, r.data);
  }

  /** The states a successful read goes through, from the call to the reply at the front. */
  lemma {:induction false} ReadAccounted(s0: State, s1: State, s3: State, s4: State, i: nat, h: int, r: Msg)
    requires Inv(s0) && Inv(s1) && Inv(s3)
    requires i < SLOTS && h == s0.slots[i].handle && s1.slots == s0.slots && s3.slots == s0.slots
    requires Quiet(s1.modem.channel) && r.ReadReply? && r.handle == h && h in s1.modem.queues
    requires s1.modem.queues[h] != [] ==> r.data != []
    requires Extends(s1.modem.channel + [r], s3.modem.channel)
    requires Receiving(s3, s4, r, h) && s4.modem.channel[0] == r && Quiet(s4.modem.channel[1..])
    ensures Enabled(s4, TakeRead(i))
    ensures var s5 := Apply(s4, TakeRead(i));
      && Inv(s5) && Quiet(s5.modem.channel) && OnlyFreed(s0.slots, s5.slots)
      && (s0.slots[i].pending > 0 && s5.slots[i].handle != UNUSED ==> r.data != [])
  {
    ReadSettles(s0, s3, s4, i, h, r);
    if s4.slots[i].handle == h && s0.slots[i].pending > 0 {
      ReadIsFruitful(s1, s3, s4, i, h, r);
    }
  }

  /** The states a successful close goes through, from the call to the reply at the front. */
  lemma {:induction false} CloseAccounted(s0: State, s1: State, s2: State, s3: State, s4: State, i: nat, h: int, r: Msg)
    requires Inv(s0) && Inv(s1) && Inv(s3)
    requires i < SLOTS && h == s0.slots[i].handle && s1.slots == s0.slots && s3.slots == s0.slots
    requires r == CloseReply(h) && Enabled(s1, Close(h)) && s2 == Apply(s1, Close(h))
    requires Drifts(s2.modem, s3.modem)
    requires Receiving(s3, s4, r, UNUSED) && s4.modem.channel[0] == r && Quiet(s4.modem.channel[1..])
    ensures h != UNUSED && Enabled(s4, TakeClose(i))
    ensures var s5 := Apply(s4, TakeClose(i));
      && Inv(s5) && Quiet(s5.modem.channel) && OnlyFreed(s0.slots, s5.slots)
      && h !in s5.modem.queues && Find(s5.slots, h) == None && ClosedBefore(s5.modem, h)
  {
    StillOwned(s3.slots, s4.slots, i, h);
    StepKeepsInv(s4, TakeClose(i));
    CloseReplyTaken(s4.modem);
  }

  /** Slot `i` was `copy`, and is closed now on both sides. */
  ghost predicate ClosedFor(s: State, i: nat, copy: Slot)
    requires i < |s.slots|
  {
    && s.slots[i].handle == UNUSED && copy.handle != UNUSED && copy.pending < CAPACITY
    && Find(s.slots, copy.handle).None? && ClosedBefore(s.modem, copy.handle)
  }

  // ---------------------------------------------------------------- runs of receive calls

  /** Receive calls on handle `h`, none of which failed: call `i` delivered `outs[i]`. */
  ghost predicate RecvRun(ms: seq<Modem>, outs: seq<seq<byte>>, h: int)
  {
    |ms| == |outs| + 1 && forall i :: 0 <= i < |outs| ==> Took(ms[i], ms[i + 1], h, outs[i])
  }

  lemma {:induction false} TakenInOrder(ms: seq<Modem>, outs: seq<seq<byte>>, h: int, n: nat)
    requires RecvRun(ms, outs, h) && n <= |outs| && h in ms[n].queues && SaneModem(ms[0]) && SaneModem(ms[|outs|])
    ensures h in ms[0].queues && h in ms[0].taken && h in ms[0].arrived && h in ms[n].taken && h in ms[n].arrived
    ensures ms[n].taken[h] == ms[0].taken[h] + Joined(outs[..n]) && ms[0].arrived[h] <= ms[n].arrived[h]
    ensures n == |outs| ==> ms[n].taken[h] == ms[0].taken[h] + Joined(outs)
  {
    if n > 0 {
      assert Took(ms[n - 1], ms[n], h, outs[n - 1]);
      TakenInOrder(ms, outs, h, n - 1);
      assert outs[..n] == outs[..n - 1] + [outs[n - 1]];
      JoinedAppend(outs[..n - 1], outs[n - 1]);
    }
    assert outs[..|outs|] == outs;
  }

  lemma Conserved(t: seq<byte>, q: seq<byte>, a: seq<byte>, out: seq<byte>, t': seq<byte>, q': seq<byte>, a': seq<byte>)
    requires a == t + q && a' == t' + q' && t' == t + out && a <= a'
    ensures q + a'[|a|..] == out + q'
  {
    var x, y := q + a'[|a|..], out + q';
    assert a' == t + x;
    assert a' == t + y;
    assert x == (t + x)[|t|..] && y == (t + y)[|t|..];
  }

  /** What was unread at first, and all that has arrived since, is what was delivered followed by
      what is unread now, in order. */
  lemma {:induction false} ReceiveConservation(ms: seq<Modem>, outs: seq<seq<byte>>, h: int)
    requires RecvRun(ms, outs, h) && SaneModem(ms[0]) && SaneModem(ms[|outs|]) && h in ms[|outs|].queues
    ensures h in ms[0].queues && ms[0].arrived[h] <= ms[|outs|].arrived[h]
    ensures ms[0].queues[h] + ms[|outs|].arrived[h][|ms[0].arrived[h]|..] == Joined(outs) + ms[|outs|].queues[h]
  {
    TakenInOrder(ms, outs, h, |outs|);
    var a, b := ms[0], ms[|outs|];
    Conserved(a.taken[h], a.queues[h], a.arrived[h], Joined(outs), b.taken[h], b.queues[h], b.arrived[h]);
  }
}
