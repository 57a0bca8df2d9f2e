/**
 The socket table of the AT driver and the modem behind it, as a state machine.

 The modem keeps a queue of unread bytes per open handle.  Everything it says to the host,
 unsolicited result codes (URCs) and command replies alike, travels through one FIFO channel.
 */
module SocketProtocol {
  import opened Bytes

  const UNUSED := -1
  const SLOTS := 7
  const CAPACITY := 0x8000_0000

  datatype Slot = Slot(handle: int, pending: uint32, callback: Option<nat>)

  const FREE := Slot(UNUSED, 0, None)

  datatype Msg =
    | DataUrc(handle: int, total: uint32)      // +UUSORD, +UUSORF
    | ClosedUrc(handle: int)                  // +UUSOCL
    | LostUrc(handle: int)                    // +UUPSDD
    | ReadReply(handle: int, data: seq<byte>) // +USORD, +USORF
    | CreateReply(handle: int)                // +USOCR
    | CloseReply(handle: int)                 // OK to USOCL
  {
    predicate IsUrc()
    {
      DataUrc? || ClosedUrc? || LostUrc?
    }

    /** It takes the handle away from the host. */
    predicate IsEnd()
    {
      ClosedUrc? || LostUrc? || CloseReply?
    }
  }

  /** `arrived` and `taken` record, for each open handle, all that came in and all that was read. */
  datatype Modem = Modem(
    queues: map<int, seq<byte>>, channel: seq<Msg>,
    arrived: map<int, seq<byte>>, taken: map<int, seq<byte>>)

  datatype State = State(slots: seq<Slot>, modem: Modem)

  // ---------------------------------------------------------------- the host's side

  /** The first slot with this handle, as `find_socket` looks for it. */
  function Find(slots: seq<Slot>, handle: int): (i: Option<nat>)
    ensures i.Some? ==> i.value < |slots| && slots[i.value].handle == handle
    ensures i.Some? ==> forall k :: 0 <= k < i.value ==> slots[k].handle != handle
    ensures i.None? ==> forall k :: 0 <= k < |slots| ==> slots[k].handle != handle
  {
    if slots == [] then None
    else if slots[0].handle == handle then Some(0)
    else match Find(slots[1..], handle) case None => None case Some(i) => Some(i + 1)
  }

  /** What a URC handler does to the table. */
  function Handle(slots: seq<Slot>, m: Msg): (r: seq<Slot>)
    requires m.IsUrc()
    ensures |r| == |slots|
  {
    match Find(slots, m.handle)
    case None => slots
    case Some(i) => slots[i := if m.DataUrc? then slots[i].(pending := m.total) else FREE]
  }

  // ---------------------------------------------------------------- replaying the channel

  /** What the host knows, or will know, about one handle. */
  datatype View = Gone | Held(pending: nat) | Broken

  function OnMsg(v: View, handle: int, m: Msg): View
  {
    if m.handle != handle || v.Broken? then v
    else match m
      case DataUrc(_, total) => if v.Held? then Held(total) else v
      case ReadReply(_, data) => if v.Gone? then v else if |data| <= v.pending then Held(v.pending - |data|) else Broken
      case CreateReply(_) => if v.Gone? then Held(0) else Broken
      case _ => Gone
  }

  /** The undelivered messages applied, in order, to what the host knows now. */
  function Replay(v: View, handle: int, channel: seq<Msg>): View
  {
    if channel == [] then v
    else OnMsg(Replay(v, handle, channel[..|channel| - 1]), handle, channel[|channel| - 1])
  }

  function ViewOf(slots: seq<Slot>, handle: int): View
  {
    match Find(slots, handle)
    case None => Gone
    case Some(i) => Held(slots[i].pending)
  }

  // ---------------------------------------------------------------- the invariant

  /** In the end the host holds the handle only if it is open, with the right unread count. */
  predicate Consistent(s: State, handle: int)
  {
    var v := Replay(ViewOf(s.slots, handle), handle, s.modem.channel);
    !v.Broken? && (v.Held? ==> handle in s.modem.queues && v.pending == |s.modem.queues[handle]|)
  }

  /** Handles in use are pairwise distinct. */
  predicate Distinct(slots: seq<Slot>)
  {
    forall i, j :: 0 <= i < j < |slots| && slots[i].handle == slots[j].handle ==> slots[i].handle == UNUSED
  }

  predicate SaneMsg(m: Msg)
  {
    m.handle != UNUSED && (m.DataUrc? ==> 1 <= m.total < CAPACITY) && (m.ReadReply? ==> |m.data| < CAPACITY)
  }

  /** What arrived on a handle was read or is still unread. */
  predicate Balanced(m: Modem)
  {
    && UNUSED !in m.queues
    && m.arrived.Keys == m.queues.Keys && m.taken.Keys == m.queues.Keys
    && forall h :: h in m.queues ==> |m.queues[h]| < CAPACITY && m.arrived[h] == m.taken[h] + m.queues[h]
  }

  predicate SaneModem(m: Modem)
  {
    Balanced(m) && forall i :: 0 <= i < |m.channel| ==> SaneMsg(m.channel[i])
  }

  /** The messages about the handle fit a modem on which it is `open` in the end. */
  predicate Legal(channel: seq<Msg>, h: int, open: bool)
  {
    channel != [] ==>
      var m, before := channel[|channel| - 1], channel[..|channel| - 1];
      if m.handle != h || m.LostUrc? then Legal(before, h, open)
      else if m.CreateReply? then open && Legal(before, h, false)
      else if m.IsEnd() then !open && Legal(before, h, true)
      else open && Legal(before, h, true)
  }

  /** What the channel says of the handle is true. */
  predicate Told(m: Modem, h: int)
  {
    Legal(m.channel, h, h in m.queues)
  }

  ghost predicate Truthful(m: Modem)
  {
    forall h :: h != UNUSED ==> Told(m, h)
  }

  ghost predicate Inv(s: State)
  {
    && |s.slots| == SLOTS && Distinct(s.slots) && SaneModem(s.modem)
    && (forall i :: 0 <= i < SLOTS && s.slots[i].handle != UNUSED ==> s.slots[i].pending < CAPACITY)
    && (forall h :: h != UNUSED ==> Consistent(s, h)) && Truthful(s.modem)
  }

  // ---------------------------------------------------------------- steps

  datatype Step =
    | Arrive(h: int, data: seq<byte>)  // data from the network
    | RemoteClose(h: int)              // the far end closes
    | Lose(h: int)                     // the modem reports a lost connection
    | Read(h: int, k: nat)             // the modem serves USORD
    | Create(h: int)                   // the modem serves USOCR
    | Close(h: int)                    // the modem serves USOCL
    | Urc                              // the host runs the handler of the next URC
    | TakeRead(i: nat)                 // the host takes the next reply for slot `i`, whatever its handle
    | TakeCreate(i: nat)
    | TakeClose(i: nat)
    | TakeBind(i: nat, saved: Slot)    // the host puts a saved slot back in place of a created one
    | Attach(i: nat, callback: Option<nat>)
    | Miss                             // the host gives up on a reply; it is skipped later

  predicate Enabled(s: State, t: Step)
    requires |s.slots| == SLOTS
  {
    var m := s.modem;
    match t
    case Arrive(h, data) => h in m.queues && data != [] && |m.queues[h]| + |data| < CAPACITY
    case RemoteClose(h) => h in m.queues
    case Lose(h) => h != UNUSED
    case Read(h, k) => h in m.queues && k <= |m.queues[h]|
    case Create(h) => h !in m.queues && h != UNUSED
    case Close(h) => h in m.queues
    case Urc => m.channel != [] && m.channel[0].IsUrc()
    case TakeRead(i) => m.channel != [] && m.channel[0].ReadReply? && i < SLOTS
    case TakeCreate(i) =>
      m.channel != [] && m.channel[0].CreateReply? && i < SLOTS && s.slots[i].handle == UNUSED
    case TakeClose(i) => m.channel != [] && m.channel[0].CloseReply? && i < SLOTS
    case TakeBind(i, saved) =>
      m.channel != [] && m.channel[0].CreateReply? && i < SLOTS && s.slots[i].handle == UNUSED
    case Attach(i, _) => i < SLOTS
    case Miss => m.channel != [] && !m.channel[0].IsUrc()
  }

  /** Slot `i` was `handle`'s when the command went out; a URC may have cleared it since. */
  predicate OwnsOrLost(slots: seq<Slot>, i: nat, handle: int)
    requires i < |slots|
  {
    slots[i].handle == handle || (slots[i].handle == UNUSED && Find(slots, handle).None?)
  }

  function Without(m: Modem, h: int): Modem
  {
    m.(queues := m.queues - {h}, arrived := m.arrived - {h}, taken := m.taken - {h})
  }

  function Popped(m: Modem): Modem
    requires m.channel != []
  {
    m.(channel := m.channel[1..])
  }

  /** `socket_bind` puts the saved slot back, whatever handle the modem created. */
  function Rebound(s: State, i: nat, saved: Slot): State
    requires s.modem.channel != [] && i < |s.slots|
  {
    State(s.slots[i := saved], Popped(s.modem))
  }

  function Apply(s: State, t: Step): State
    requires |s.slots| == SLOTS && Enabled(s, t) && SaneModem(s.modem)
  {
    var m := s.modem;
    match t
    case Arrive(h, data) =>
      var q := m.queues[h] + data;
      s.(modem := m.(queues := m.queues[h := q], arrived := m.arrived[h := m.arrived[h] + data],
                     channel := m.channel + [DataUrc(h, |q|)]))
    case RemoteClose(h) => s.(modem := Without(m, h).(channel := m.channel + [ClosedUrc(h)]))
    case Lose(h) => s.(modem := m.(channel := m.channel + [LostUrc(h)]))
    case Read(h, k) =>
      var q := m.queues[h];
      s.(modem := m.(queues := m.queues[h := q[k..]], taken := m.taken[h := m.taken[h] + q[..k]],
                     channel := m.channel + [ReadReply(h, q[..k])]))
    case Create(h) =>
      s.(modem := m.(queues := m.queues[h := []], arrived := m.arrived[h := []], taken := m.taken[h := []],
                     channel := m.channel + [CreateReply(h)]))
    case Close(h) => s.(modem := Without(m, h).(channel := m.channel + [CloseReply(h)]))
    case Urc => State(Handle(s.slots, m.channel[0]), Popped(m))
    case TakeRead(i) =>
      State(s.slots[i := s.slots[i].(pending := Sub32(s.slots[i].pending, |m.channel[0].data|))], Popped(m))
    case TakeCreate(i) => State(s.slots[i := Slot(m.channel[0].handle, 0, None)], Popped(m))
    case TakeClose(i) => State(s.slots[i := FREE], Popped(m))
    case TakeBind(i, saved) => Rebound(s, i, saved)
    case Attach(i, callback) => s.(slots := s.slots[i := s.slots[i].(callback := callback)])
    case Miss => s.(modem := Popped(m))
  }

  /** The first message about the handle. */
  function First(channel: seq<Msg>, h: int): (m: Option<Msg>)
    ensures m.Some? ==> m.value in channel && m.value.handle == h
  {
    if channel == [] then None
    else if channel[0].handle == h then Some(channel[0])
    else First(channel[1..], h)
  }

  /** A message about the handle that does not depend on the count so far. */
  predicate Corrected(channel: seq<Msg>, h: int)
  {
    exists i :: 0 <= i < |channel| && channel[i].handle == h && !channel[i].ReadReply?
  }

  /** The reply at the front may be skipped: it creates, or no slot holds its handle, or a later
      message makes up for it. */
  predicate HarmlessToMiss(s: State)
    requires s.modem.channel != []
  {
    var m, rest := s.modem.channel[0], s.modem.channel[1..];
    || m.CreateReply?
    || Find(s.slots, m.handle).None?
    || (m.ReadReply? && (m.data == [] || Corrected(rest, m.handle)))
    || (m.CloseReply? && var f := First(rest, m.handle); f.Some? && f.value.IsEnd())
  }

  /** The bytes of the read replies about the handle that come before any other message about it. */
  function Claimed(channel: seq<Msg>, h: int): nat
  {
    if channel == [] then 0
    else if channel[0].handle != h then Claimed(channel[1..], h)
    else if channel[0].ReadReply? then |channel[0].data| + Claimed(channel[1..], h)
    else 0
  }

  /** A late reply to USORD, taken for slot `i` of another socket, does no harm: its own socket does
      not miss it, and the other one has read nothing, is free, or has a count that covers the bytes
      until it is corrected. */
  predicate HarmlessToMisread(s: State, i: nat)
    requires s.modem.channel != [] && s.modem.channel[0].ReadReply? && i < |s.slots|
  {
    var m, rest, x := s.modem.channel[0], s.modem.channel[1..], s.slots[i];
    && HarmlessToMiss(s)
    && (x.handle != UNUSED && m.data != [] ==>
          Corrected(rest, x.handle) && |m.data| + Claimed(rest, x.handle) <= x.pending)
  }

  /** A reply is taken by the socket that asked, or is late and does no harm; and a saved slot goes
      back under the number it had, with nothing pending. */
  predicate Orderly(s: State, t: Step)
    requires |s.slots| == SLOTS && Enabled(s, t)
  {
    match t
    case Miss => HarmlessToMiss(s)
    case TakeRead(i) => OwnsOrLost(s.slots, i, s.modem.channel[0].handle) || HarmlessToMisread(s, i)
    case TakeClose(i) => OwnsOrLost(s.slots, i, s.modem.channel[0].handle) || HarmlessToMiss(s)
    case TakeBind(i, saved) => saved.handle == s.modem.channel[0].handle && saved.pending == 0
    case _ => true
  }

  /** The message at the front is handled by the socket it is for. */
  predicate ByItsOwn(s: State, t: Step)
    requires |s.slots| == SLOTS && Enabled(s, t)
  {
    || t.Urc? || t.TakeCreate?
    || ((t.TakeRead? || t.TakeClose?) && OwnsOrLost(s.slots, t.i, s.modem.channel[0].handle))
  }

  // ---------------------------------------------------------------- lemmas about replay

  lemma {:induction false} ReplayHead(v: View, handle: int, channel: seq<Msg>)
    requires channel != []
    ensures Replay(v, handle, channel) == Replay(OnMsg(v, handle, channel[0]), handle, channel[1..])
  {
    var n := |channel| - 1;
    if n == 0 {
      assert channel[..n] == [] == channel[1..];
    } else {
      ReplayHead(v, handle, channel[..n]);
      assert channel[1..][..n - 1] == channel[..n][1..];
    }
  }

  lemma ReplayAppend(v: View, handle: int, channel: seq<Msg>, m: Msg)
    ensures Replay(v, handle, channel + [m]) == OnMsg(Replay(v, handle, channel), handle, m)
  {
  }

  lemma {:induction false} BrokenStays(handle: int, channel: seq<Msg>)
    ensures Replay(Broken, handle, channel) == Broken
  {
    if channel != [] {
      BrokenStays(handle, channel[..|channel| - 1]);
    }
  }

  /** A host that forgets a handle ends up knowing nothing about it, or just what it would have known. */
  lemma {:induction false} ForgettingIsSafe(v: View, handle: int, channel: seq<Msg>)
    requires !Replay(v, handle, channel).Broken?
    ensures Replay(Gone, handle, channel) in {Gone, Replay(v, handle, channel)}
  {
    if channel != [] {
      ForgettingIsSafe(v, handle, channel[..|channel| - 1]);
    }
  }

  // ---------------------------------------------------------------- lemmas about the table

  /** Slot `i` becomes `x`: freed, kept under its handle, or given a handle no slot has. */
  lemma UpdateView(slots: seq<Slot>, i: nat, x: Slot, h: int)
    requires Distinct(slots) && i < |slots| && h != UNUSED
    requires x.handle in {UNUSED, slots[i].handle} || Find(slots, x.handle).None?
    ensures Distinct(slots[i := x])
    ensures ViewOf(slots[i := x], h) ==
      if h == x.handle then Held(x.pending) else if h == slots[i].handle then Gone else ViewOf(slots, h)
  {
    var t := slots[i := x];
    assert forall k :: 0 <= k < |slots| && k != i ==> t[k] == slots[k];
    assert t[i] == x;
    match Find(t, h) {
      case Some(k) => assert k != i ==> slots[k].handle == h;
      case None =>
        assert forall k :: 0 <= k < |t| ==> t[k].handle != h;
        assert forall k :: 0 <= k < |slots| && k != i ==> slots[k].handle != h;
    }
  }

  lemma {:induction false} HandleFollowsView(slots: seq<Slot>, m: Msg, h: int)
    requires Distinct(slots) && m.IsUrc() && h != UNUSED && m.handle != UNUSED
    ensures ViewOf(Handle(slots, m), h) == OnMsg(ViewOf(slots, h), h, m)
    ensures Distinct(Handle(slots, m))
  {
    match Find(slots, m.handle) {
      case None =>
      case Some(i) => UpdateView(slots, i, if m.DataUrc? then slots[i].(pending := m.total) else FREE, h);
    }
  }

  /** The slot a URC names is the only one its handler may change. */
  lemma UrcTouchesOneSlot(slots: seq<Slot>, m: Msg, k: nat)
    requires Distinct(slots) && m.IsUrc() && m.handle != UNUSED && k < |slots| && Handle(slots, m)[k] != slots[k]
    ensures slots[k].handle == m.handle
    ensures forall j :: 0 <= j < |slots| && j != k ==> Handle(slots, m)[j] == slots[j]
    ensures Handle(slots, m)[k] == if m.DataUrc? then slots[k].(pending := m.total) else FREE
  {
  }

  // ---------------------------------------------------------------- what the channel can say

  predicate IsModemStep(t: Step)
  {
    t.Arrive? || t.RemoteClose? || t.Lose? || t.Read? || t.Create? || t.Close?
  }

  lemma {:induction false} LegalTail(channel: seq<Msg>, h: int, open: bool)
    requires channel != [] && Legal(channel, h, open)
    ensures Legal(channel[1..], h, open)
  {
    var n := |channel| - 1;
    if n > 0 {
      var m := channel[n];
      assert channel[1..][n - 1] == m && channel[1..][..n - 1] == channel[..n][1..];
      LegalTail(channel[..n], h, if m.handle != h || m.LostUrc? then open else !m.CreateReply?);
    }
  }

  /** A step of the modem adds one message, and it is true. */
  lemma {:induction false} ModemSpeaksTruth(s: State, t: Step, before: seq<Msg>, h: int)
    requires |s.slots| == SLOTS && SaneModem(s.modem) && Enabled(s, t) && IsModemStep(t) && h != UNUSED
    requires Legal(before + s.modem.channel, h, h in s.modem.queues)
    ensures Legal(before + Apply(s, t).modem.channel, h, h in Apply(s, t).modem.queues)
  {
    var c, c' := before + s.modem.channel, before + Apply(s, t).modem.channel;
    assert c'[..|c|] == c && |c'| == |c| + 1;
  }

  lemma StepKeepsTruth(s: State, t: Step)
    requires |s.slots| == SLOTS && SaneModem(s.modem) && Enabled(s, t) && Truthful(s.modem)
    ensures Truthful(Apply(s, t).modem)
  {
    var m, m' := s.modem, Apply(s, t).modem;
    forall h | h != UNUSED ensures Told(m', h) {
      assert Told(m, h);
      if IsModemStep(t) {
        assert [] + m.channel == m.channel && [] + m'.channel == m'.channel;
        ModemSpeaksTruth(s, t, [], h);
      } else if !t.Attach? {
        LegalTail(m.channel, h, h in m.queues);
      }
    }
  }

  lemma {:induction false} FirstAppend(channel: seq<Msg>, m: Msg, h: int)
    ensures First(channel + [m], h) ==
      if First(channel, h).Some? then First(channel, h) else if m.handle == h then Some(m) else None
  {
    if channel == [] {
      assert [m][1..] == [];
    } else {
      FirstAppend(channel[1..], m, h);
      assert (channel + [m])[1..] == channel[1..] + [m];
    }
  }

  /** After a handle is closed nothing is said of it but that it is lost, until it is created again. */
  lemma {:induction false} SilenceAfterClose(channel: seq<Msg>, h: int, open: bool)
    requires channel != [] && channel[0] == CloseReply(h) && Legal(channel, h, open)
    ensures var f := First(channel[1..], h);
      if f.None? then !open else f.value.LostUrc? || f.value.CreateReply?
  {
    var n := |channel| - 1;
    if n > 0 {
      var m, before := channel[n], channel[..n];
      SilenceAfterClose(before, h, if m.handle != h || m.LostUrc? then open else !m.CreateReply?);
      assert channel[1..] == before[1..] + [m];
      FirstAppend(before[1..], m, h);
    }
  }

  // ---------------------------------------------------------------- the invariant is kept

  lemma {:induction false} StaysBalanced(s: State, t: Step)
    requires |s.slots| == SLOTS && SaneModem(s.modem) && Enabled(s, t) && IsModemStep(t)
    ensures Balanced(Apply(s, t).modem)
  {
    var m := s.modem;
    match t {
      case Read(h, k) =>
        var q := m.queues[h];
        assert m.taken[h] + q == m.taken[h] + q[..k] + q[k..];
      case Arrive(h, data) =>
        assert m.taken[h] + m.queues[h] + data == m.taken[h] + (m.queues[h] + data);
      case _ =>
    }
  }

  lemma {:induction false} ModemStaysSane(s: State, t: Step)
    requires |s.slots| == SLOTS && SaneModem(s.modem) && Enabled(s, t) && IsModemStep(t)
    ensures SaneModem(Apply(s, t).modem)
    ensures |Apply(s, t).modem.channel| == |s.modem.channel| + 1 && s.modem.channel <= Apply(s, t).modem.channel
  {
    StaysBalanced(s, t);
  }

  /** Steps of the modem: it speaks at the end of the channel. */
  lemma ModemStepKeepsInv(s: State, t: Step)
    requires Inv(s) && Enabled(s, t) && IsModemStep(t)
    ensures Inv(Apply(s, t))
  {
    var s' := Apply(s, t);
    var m := s'.modem.channel[|s.modem.channel|];
    ModemStaysSane(s, t);
    StepKeepsTruth(s, t);
    assert s'.modem.channel == s.modem.channel + [m];
    forall h | h != UNUSED ensures Consistent(s', h) {
      assert Consistent(s, h);
      ReplayAppend(ViewOf(s.slots, h), h, s.modem.channel, m);
    }
  }

  /** When the reply for a socket still in use is accounted for, its pending count covers it. */
  lemma NoUnderflow(s: State, i: nat)
    requires Inv(s) && Enabled(s, TakeRead(i)) && s.slots[i].handle == s.modem.channel[0].handle
    ensures |s.modem.channel[0].data| <= s.slots[i].pending
    ensures Sub32(s.slots[i].pending, |s.modem.channel[0].data|) == s.slots[i].pending - |s.modem.channel[0].data|
  {
    var h := s.modem.channel[0].handle;
    assert SaneMsg(s.modem.channel[0]);
    assert Consistent(s, h);
    ReplayHead(ViewOf(s.slots, h), h, s.modem.channel);
    BrokenStays(h, s.modem.channel[1..]);
  }

  /** What the host makes of the message at the front of the channel. */
  lemma HostStepView(s: State, t: Step, h: int)
    requires Inv(s) && Enabled(s, t) && ByItsOwn(s, t) && h != UNUSED
    ensures Distinct(Apply(s, t).slots)
    ensures ViewOf(Apply(s, t).slots, h) == OnMsg(ViewOf(s.slots, h), h, s.modem.channel[0])
  {
    var s', m := Apply(s, t), s.modem.channel[0];
    assert SaneMsg(m);
    if t.Urc? {
      HandleFollowsView(s.slots, m, h);
    } else {
      if t.TakeRead? && s.slots[t.i].handle == m.handle {
        NoUnderflow(s, t.i);
      }
      if t.TakeCreate? {
        assert Consistent(s, m.handle);
        ReplayHead(ViewOf(s.slots, m.handle), m.handle, s.modem.channel);
        BrokenStays(m.handle, s.modem.channel[1..]);
      }
      UpdateView(s.slots, t.i, s'.slots[t.i], h);
    }
  }

  /** Steps of the host: it listens at the front. */
  lemma HostStepKeepsInv(s: State, t: Step)
    requires Inv(s) && Enabled(s, t) && ByItsOwn(s, t)
    ensures Inv(Apply(s, t))
  {
    var s' := Apply(s, t);
    forall h | h != UNUSED ensures Consistent(s', h) && Distinct(s'.slots) {
      assert Consistent(s, h);
      ReplayHead(ViewOf(s.slots, h), h, s.modem.channel);
      HostStepView(s, t, h);
    }
    HostStepView(s, t, 0);
    if t.TakeRead? && s.slots[t.i].handle == s.modem.channel[0].handle {
      NoUnderflow(s, t.i);
    }
    StepKeepsTruth(s, t);
    assert SaneMsg(s.modem.channel[0]);
  }

  /** What is left of `d` bytes the host never accounts for: nothing once a message corrects the count. */
  lemma {:induction false} UncountedBytes(p: nat, d: nat, h: int, channel: seq<Msg>)
    requires d <= p && !Replay(Held(p - d), h, channel).Broken?
    ensures var v, v' := Replay(Held(p - d), h, channel), Replay(Held(p), h, channel);
      if Corrected(channel, h) then v' == v else v.Held? && v' == Held(v.pending + d)
  {
    if channel != [] {
      var n := |channel| - 1;
      var before, last := channel[..n], channel[n];
      UncountedBytes(p, d, h, before);
      if last.handle == h && !last.ReadReply? {
        assert Corrected(channel, h);
      }
      if Corrected(before, h) {
        var i :| 0 <= i < n && before[i].handle == h && !before[i].ReadReply?;
        assert channel[i] == before[i];
      } else if Corrected(channel, h) {
        assert last.handle == h && !last.ReadReply? by {
          var i :| 0 <= i <= n && channel[i].handle == h && !channel[i].ReadReply?;
          assert i == n || before[i].handle == h;
        }
      }
    }
  }

  /** A host that still holds a handle sees what follows according to the first message about it. */
  lemma {:induction false} FirstDecides(p: nat, h: int, channel: seq<Msg>)
    ensures var f := First(channel, h);
      && (f.None? ==> Replay(Held(p), h, channel) == Held(p))
      && (f.Some? && f.value.IsEnd() ==> Replay(Held(p), h, channel) == Replay(Gone, h, channel))
      && (f.Some? && f.value.CreateReply? ==> Replay(Held(p), h, channel) == Broken)
  {
    if channel != [] {
      ReplayHead(Held(p), h, channel);
      ReplayHead(Gone, h, channel);
      BrokenStays(h, channel[1..]);
      FirstDecides(p, h, channel[1..]);
    }
  }

  /** The handle of a reply that is skipped: consistent still if the reply was harmless. */
  lemma MissedHandle(s: State)
    requires Inv(s) && Enabled(s, Miss)
    ensures HarmlessToMiss(s) ==> Consistent(Apply(s, Miss), s.modem.channel[0].handle)
    ensures s.modem.channel[0].ReadReply? && !HarmlessToMiss(s) ==>
      !Consistent(Apply(s, Miss), s.modem.channel[0].handle)
  {
    var m, rest := s.modem.channel[0], s.modem.channel[1..];
    var h, v := m.handle, ViewOf(s.slots, m.handle);
    assert SaneMsg(m) && Consistent(s, h);
    ReplayHead(v, h, s.modem.channel);
    BrokenStays(h, rest);
    if m.CreateReply? {
      ForgettingIsSafe(OnMsg(v, h, m), h, rest);
    } else if v.Held? {
      if m.ReadReply? {
        UncountedBytes(v.pending, |m.data|, h, rest);
      } else {
        FirstDecides(v.pending, h, rest);
      }
    }
  }

  lemma OthersUnmoved(s: State)
    requires Inv(s) && Enabled(s, Miss)
    ensures forall h :: h != UNUSED && h != s.modem.channel[0].handle ==> Consistent(Apply(s, Miss), h)
  {
    forall h | h != UNUSED && h != s.modem.channel[0].handle ensures Consistent(Apply(s, Miss), h) {
      assert Consistent(s, h);
      ReplayHead(ViewOf(s.slots, h), h, s.modem.channel);
    }
  }

  /** Skipping a harmless reply; a missed USOCR leaves a handle open that no slot knows of. */
  lemma MissKeepsInv(s: State)
    requires Inv(s) && Enabled(s, Miss) && HarmlessToMiss(s)
    ensures Inv(Apply(s, Miss))
  {
    MissedHandle(s);
    OthersUnmoved(s);
    StepKeepsTruth(s, Miss);
  }

  /** The handle of a reply that is skipped is inconsistent if the reply was not harmless. */
  lemma MissedHandleBreaks(s: State)
    requires Inv(s) && Enabled(s, Miss) && !HarmlessToMiss(s)
    ensures !Consistent(Apply(s, Miss), s.modem.channel[0].handle)
  {
    var m := s.modem.channel[0];
    MissedHandle(s);
    assert SaneMsg(m);
    if m.CloseReply? {
      assert Told(s.modem, m.handle);
      SilenceAfterClose(s.modem.channel, m.handle, m.handle in s.modem.queues);
      FirstDecides(ViewOf(s.slots, m.handle).pending, m.handle, s.modem.channel[1..]);
    }
  }

  /** A reply may be skipped exactly when it is harmless. */
  lemma MissIsRightIff(s: State)
    requires Inv(s) && Enabled(s, Miss)
    ensures Inv(Apply(s, Miss)) <==> HarmlessToMiss(s)
  {
    assert SaneMsg(s.modem.channel[0]);
    if HarmlessToMiss(s) {
      MissKeepsInv(s);
    } else {
      MissedHandleBreaks(s);
    }
  }

  /** A host that counts too little runs dry exactly when the read replies to come claim more. */
  lemma {:induction false} ClaimedDecides(q: nat, p: nat, h: int, channel: seq<Msg>)
    requires q <= p && !Replay(Held(p), h, channel).Broken?
    ensures Replay(Held(q), h, channel).Broken? <==> Claimed(channel, h) > q
  {
    if channel != [] {
      var m, rest := channel[0], channel[1..];
      ReplayHead(Held(q), h, channel);
      ReplayHead(Held(p), h, channel);
      BrokenStays(h, rest);
      if m.handle != h {
        ClaimedDecides(q, p, h, rest);
      } else if m.ReadReply? && |m.data| <= q {
        ClaimedDecides(q - |m.data|, p - |m.data|, h, rest);
      }
    }
  }

  /** Slot `i` after the reply at the front was taken for it. */
  function Taken(s: State, i: nat): Slot
    requires s.modem.channel != [] && i < |s.slots|
  {
    if s.modem.channel[0].ReadReply?
    then s.slots[i].(pending := Sub32(s.slots[i].pending, |s.modem.channel[0].data|))
    else FREE
  }

  /** A late reply taken for another socket leaves every handle but that socket's as if it were skipped. */
  lemma MistakenElsewhere(s: State, i: nat, h: int)
    requires Inv(s) && Enabled(s, Miss) && !s.modem.channel[0].CreateReply? && i < SLOTS
    requires h != UNUSED && h != s.slots[i].handle
    ensures Distinct(s.slots[i := Taken(s, i)])
    ensures Consistent(State(s.slots[i := Taken(s, i)], Popped(s.modem)), h) <==> Consistent(Apply(s, Miss), h)
  {
    UpdateView(s.slots, i, Taken(s, i), h);
  }

  /** The other socket comes out right exactly when it is free, nothing was read, or its count covers
      the bytes until it is corrected. */
  lemma MisreadSocket(s: State, i: nat)
    requires Inv(s) && Enabled(s, TakeRead(i)) && !OwnsOrLost(s.slots, i, s.modem.channel[0].handle)
    requires s.slots[i].handle != UNUSED
    ensures var m, rest, x := s.modem.channel[0], s.modem.channel[1..], s.slots[i];
      Consistent(Apply(s, TakeRead(i)), x.handle) && Taken(s, i).pending < CAPACITY <==>
        m.data == [] || (Corrected(rest, x.handle) && |m.data| + Claimed(rest, x.handle) <= x.pending)
  {
    var m, rest, x := s.modem.channel[0], s.modem.channel[1..], s.slots[i];
    assert SaneMsg(m) && Consistent(s, x.handle);
    ReplayHead(ViewOf(s.slots, x.handle), x.handle, s.modem.channel);
    UpdateView(s.slots, i, x, x.handle);
    UpdateView(s.slots, i, Taken(s, i), x.handle);
    assert s.slots[i := x] == s.slots;
    if |m.data| <= x.pending {
      ClaimedDecides(x.pending - |m.data|, x.pending, x.handle, rest);
      if |m.data| + Claimed(rest, x.handle) <= x.pending {
        UncountedBytes(x.pending, |m.data|, x.handle, rest);
      }
    }
  }

  /** A late reply to USORD may be taken for another socket exactly when it does no harm. */
  lemma MisreadIsRightIff(s: State, i: nat)
    requires Inv(s) && Enabled(s, TakeRead(i)) && !OwnsOrLost(s.slots, i, s.modem.channel[0].handle)
    ensures Inv(Apply(s, TakeRead(i))) <==> HarmlessToMisread(s, i)
  {
    var s', m, x := Apply(s, TakeRead(i)), s.modem.channel[0], s.slots[i];
    assert SaneMsg(m) && x.handle != m.handle;
    MistakenElsewhere(s, i, m.handle);
    if x.handle != UNUSED {
      MisreadSocket(s, i);
    }
    if HarmlessToMisread(s, i) {
      MissKeepsInv(s);
      forall h | h != UNUSED ensures Consistent(s', h) {
        if h != x.handle {
          MistakenElsewhere(s, i, h);
          assert Consistent(Apply(s, Miss), h);
        }
      }
    } else if !HarmlessToMiss(s) {
      MissedHandleBreaks(s);
      assert !Consistent(s', m.handle);
    } else {
      assert !Consistent(s', x.handle) || s'.slots[i].pending >= CAPACITY;
    }
  }

  /** A late OK to USOCL may be taken for another socket exactly when it may be skipped. */
  lemma MiscloseIsRightIff(s: State, i: nat)
    requires Inv(s) && Enabled(s, TakeClose(i)) && !OwnsOrLost(s.slots, i, s.modem.channel[0].handle)
    ensures Inv(Apply(s, TakeClose(i))) <==> HarmlessToMiss(s)
  {
    var s', m, x := Apply(s, TakeClose(i)), s.modem.channel[0], s.slots[i];
    assert SaneMsg(m) && x.handle != m.handle;
    MistakenElsewhere(s, i, m.handle);
    if HarmlessToMiss(s) {
      MissKeepsInv(s);
      forall h | h != UNUSED ensures Consistent(s', h) {
        assert Consistent(Apply(s, Miss), h);
        if h != x.handle {
          MistakenElsewhere(s, i, h);
        } else {
          UpdateView(s.slots, i, FREE, h);
          ForgettingIsSafe(ViewOf(s.slots, h), h, s'.modem.channel);
        }
      }
    } else {
      MissedHandleBreaks(s);
    }
  }

  lemma AttachKeepsInv(s: State, i: nat, callback: Option<nat>)
    requires Inv(s) && i < SLOTS
    ensures Inv(Apply(s, Attach(i, callback)))
  {
    var s' := Apply(s, Attach(i, callback));
    StepKeepsTruth(s, Attach(i, callback));
    forall h | h != UNUSED ensures Consistent(s', h) && Distinct(s'.slots) {
      assert Consistent(s, h);
      UpdateView(s.slots, i, s'.slots[i], h);
    }
    UpdateView(s.slots, i, s'.slots[i], 0);
  }

  /** Putting a saved slot back is right when the modem reissued its handle and nothing was pending. */
  lemma BindKeepsInv(s: State, i: nat, saved: Slot)
    requires Inv(s) && Enabled(s, TakeBind(i, saved)) && Orderly(s, TakeBind(i, saved))
    ensures Inv(Rebound(s, i, saved))
  {
    HostStepKeepsInv(s, TakeCreate(i));
    var t := Apply(s, TakeCreate(i));
    AttachKeepsInv(t, i, saved.callback);
    assert Rebound(s, i, saved) == Apply(t, Attach(i, saved.callback));
  }

  lemma StepKeepsInv(s: State, t: Step)
    requires Inv(s) && Enabled(s, t) && Orderly(s, t)
    ensures Inv(Apply(s, t))
  {
    if IsModemStep(t) {
      ModemStepKeepsInv(s, t);
    } else if ByItsOwn(s, t) {
      HostStepKeepsInv(s, t);
    } else {
      match t {
        case Miss => MissKeepsInv(s);
        case TakeRead(i) => MisreadIsRightIff(s, i);
        case TakeClose(i) => MiscloseIsRightIff(s, i);
        case TakeBind(i, saved) => BindKeepsInv(s, i, saved);
        case Attach(i, callback) => AttachKeepsInv(s, i, callback);
      }
    }
  }

  /** No step of the host but an orderly one keeps the invariant; binds have their own condition. */
  lemma StepIsRightIff(s: State, t: Step)
    requires Inv(s) && Enabled(s, t) && !t.TakeBind?
    ensures Inv(Apply(s, t)) <==> Orderly(s, t)
  {
    if Orderly(s, t) {
      StepKeepsInv(s, t);
    } else {
      match t {
        case Miss => MissIsRightIff(s);
        case TakeRead(i) => MisreadIsRightIff(s, i);
        case TakeClose(i) => MiscloseIsRightIff(s, i);
      }
    }
  }

  /** The subtraction is exact as long as the socket is still in use; for one that a URC has freed in
      the meantime, or a reply that is another's, it is exact only if the count covers the bytes. */
  lemma SubtractionIsExactIff(s: State, i: nat)
    requires Inv(s) && Enabled(s, TakeRead(i))
    ensures var m, x := s.modem.channel[0], s.slots[i];
      Sub32(x.pending, |m.data|) == x.pending - |m.data| <==> x.handle == m.handle || |m.data| <= x.pending
  {
    assert SaneMsg(s.modem.channel[0]);
    if s.slots[i].handle == s.modem.channel[0].handle {
      NoUnderflow(s, i);
    }
  }

  // ---------------------------------------------------------------- runs

  const START := State([FREE, FREE, FREE, FREE, FREE, FREE, FREE], Modem(map[], [], map[], map[]))

  /** A run from `s`: any interleaving of arrivals, closes, commands and deliveries, of orderly
      steps only if `orderly`. */
  ghost predicate Runs(s: State, ts: seq<Step>, s': State, orderly: bool)
    decreases |ts|
  {
    if ts == [] then s' == s
    else
      && |s.slots| == SLOTS && SaneModem(s.modem) && Enabled(s, ts[0]) && (orderly ==> Orderly(s, ts[0]))
      && Runs(Apply(s, ts[0]), ts[1..], s', orderly)
  }

  lemma {:induction false} InvOverRuns(s: State, ts: seq<Step>, s': State)
    requires Inv(s) && Runs(s, ts, s', true)
    ensures Inv(s')
    decreases |ts|
  {
    if ts != [] {
      StepKeepsInv(s, ts[0]);
      InvOverRuns(Apply(s, ts[0]), ts[1..], s');
    }
  }

  lemma StartKeepsInv()
    ensures Inv(START)
  {
    forall h | h != UNUSED ensures Consistent(START, h) && Told(START.modem, h) {
    }
  }

  /** The channel holds a message that takes the handle away from the host. */
  predicate EndsFor(channel: seq<Msg>, h: int)
  {
    exists i :: 0 <= i < |channel| && channel[i].handle == h && channel[i].IsEnd()
  }

  lemma {:induction false} HeldUntilEnd(p: nat, h: int, channel: seq<Msg>)
    ensures Replay(Held(p), h, channel).Gone? ==> EndsFor(channel, h)
  {
    if channel != [] {
      var n := |channel| - 1;
      HeldUntilEnd(p, h, channel[..n]);
      if EndsFor(channel[..n], h) {
        var i :| 0 <= i < n && channel[..n][i].handle == h && channel[..n][i].IsEnd();
        assert channel[i] == channel[..n][i];
      }
    }
  }

  /** In every reachable state: in-use handles are distinct; and each is open on the modem, with a
      pending count that the undelivered messages turn into exactly the unread length, unless a
      close or connection-lost message for it is still to be delivered. */
  lemma TableAgreesWithModem(ts: seq<Step>, s: State, i: nat)
    requires Runs(START, ts, s, true) && i < SLOTS
    ensures |s.slots| == SLOTS && Distinct(s.slots)
    ensures var h := s.slots[i].handle; h != UNUSED ==>
      match Replay(Held(s.slots[i].pending), h, s.modem.channel)
      case Gone => EndsFor(s.modem.channel, h)
      case Held(n) => h in s.modem.queues && n == |s.modem.queues[h]|
      case Broken => false
  {
    StartKeepsInv();
    InvOverRuns(START, ts, s);
    var h := s.slots[i].handle;
    if h != UNUSED {
      assert Consistent(s, h);
      assert Find(s.slots, h) == Some(i);
      HeldUntilEnd(s.slots[i].pending, h, s.modem.channel);
    }
  }

  lemma {:induction false} StaysPositive(p: nat, h: int, channel: seq<Msg>)
    requires p > 0 && forall k :: 0 <= k < |channel| ==> SaneMsg(channel[k]) && channel[k].IsUrc()
    ensures var v := Replay(Held(p), h, channel); v.Gone? || (v.Held? && v.pending > 0)
  {
    if channel != [] {
      StaysPositive(p, h, channel[..|channel| - 1]);
    }
  }

  /** With bytes pending, no reply outstanding and no end in sight, the modem has bytes to give. */
  lemma PendingMeansUnread(s: State, i: nat)
    requires Inv(s) && i < SLOTS && s.slots[i].handle != UNUSED && s.slots[i].pending > 0
    requires forall k :: 0 <= k < |s.modem.channel| ==> s.modem.channel[k].IsUrc()
    requires !EndsFor(s.modem.channel, s.slots[i].handle)
    ensures s.slots[i].handle in s.modem.queues && |s.modem.queues[s.slots[i].handle]| > 0
  {
    var h := s.slots[i].handle;
    assert Consistent(s, h);
    assert Find(s.slots, h) == Some(i);
    HeldUntilEnd(s.slots[i].pending, h, s.modem.channel);
    StaysPositive(s.slots[i].pending, h, s.modem.channel);
  }

  // ---------------------------------------------------------------- where it breaks

  ghost predicate Reachable(s: State, orderly: bool)
  {
    exists ts :: Runs(START, ts, s, orderly)
  }

  lemma {:induction false} RunsSnoc(s: State, ts: seq<Step>, s1: State, t: Step, orderly: bool)
    requires Runs(s, ts, s1, orderly)
    requires |s1.slots| == SLOTS && SaneModem(s1.modem) && Enabled(s1, t) && (orderly ==> Orderly(s1, t))
    ensures Runs(s, ts + [t], Apply(s1, t), orderly)
    decreases |ts|
  {
    if ts == [] {
      assert [] + [t] == [t] && [t][1..] == [];
    } else {
      assert (ts + [t])[1..] == ts[1..] + [t];
      RunsSnoc(Apply(s, ts[0]), ts[1..], s1, t, orderly);
    }
  }

  lemma ReachStep(s: State, t: Step, orderly: bool)
    requires Reachable(s, orderly)
    requires |s.slots| == SLOTS && SaneModem(s.modem) && Enabled(s, t) && (orderly ==> Orderly(s, t))
    ensures Reachable(Apply(s, t), orderly) && SaneModem(Apply(s, t).modem)
  {
    var ts :| Runs(START, ts, s, orderly);
    RunsSnoc(START, ts, s, t, orderly);
    if IsModemStep(t) {
      ModemStaysSane(s, t);
    }
  }

  lemma ReachableInv(s: State)
    requires Reachable(s, true)
    ensures Inv(s)
  {
    var ts :| Runs(START, ts, s, true);
    StartKeepsInv();
    InvOverRuns(START, ts, s);
  }

  /** Opening socket `h` in slot `i`: one exchange with the modem. */
  lemma Opened(s: State, h: int, i: nat, orderly: bool) returns (s': State)
    requires Reachable(s, orderly) && |s.slots| == SLOTS && SaneModem(s.modem) && s.modem.channel == []
    requires h !in s.modem.queues && h != UNUSED && i < SLOTS && s.slots[i].handle == UNUSED
    ensures Reachable(s', orderly) && SaneModem(s'.modem) && s'.modem.channel == []
    ensures s'.slots == s.slots[i := Slot(h, 0, None)] && s'.modem.queues == s.modem.queues[h := []]
  {
    ReachStep(s, Create(h), orderly);
    ReachStep(Apply(s, Create(h)), TakeCreate(i), orderly);
    s' := Apply(Apply(s, Create(h)), TakeCreate(i));
  }

  /** Data arrives on socket `h` of slot `i`, which had none, and the URC is handled. */
  lemma Informed(s: State, h: int, i: nat, data: seq<byte>) returns (s': State)
    requires Reachable(s, true) && |s.slots| == SLOTS && SaneModem(s.modem) && s.modem.channel == []
    requires h in s.modem.queues && s.modem.queues[h] == [] && 0 < |data| < CAPACITY && Find(s.slots, h) == Some(i)
    ensures Reachable(s', true) && SaneModem(s'.modem) && s'.modem.channel == []
    ensures s'.slots == s.slots[i := s.slots[i].(pending := |data|)] && s'.modem.queues == s.modem.queues[h := data]
  {
    assert [] + data == data;
    ReachStep(s, Arrive(h, data), true);
    ReachStep(Apply(s, Arrive(h, data)), Urc, true);
    s' := Apply(Apply(s, Arrive(h, data)), Urc);
  }

  /** All that is unread on socket `h` is read, and the reply is on its way. */
  lemma Served(s: State, h: int) returns (s': State)
    requires Reachable(s, true) && |s.slots| == SLOTS && SaneModem(s.modem) && h in s.modem.queues
    ensures Reachable(s', true) && SaneModem(s'.modem) && s'.slots == s.slots
    ensures s'.modem.channel == s.modem.channel + [ReadReply(h, s.modem.queues[h])]
  {
    var q := s.modem.queues[h];
    assert q[..|q|] == q;
    ReachStep(s, Read(h, |q|), true);
    s' := Apply(s, Read(h, |q|));
  }

  /** A lost OK to USOCL is not harmless: the modem may hand the number out again, and then two
      slots hold it. */
  lemma LostCloseDuplicatesHandle()
    ensures exists s :: Reachable(s, false) && |s.slots| == SLOTS && !Distinct(s.slots)
  {
    assert Runs(START, [], START, false);
    var s1 := Opened(START, 0, 0, false);
    ReachStep(s1, Close(0), false);
    var s2 := Apply(s1, Close(0));
    ReachStep(s2, Miss, false);
    var s3 := Apply(s2, Miss);
    var s4 := Opened(s3, 0, 1, false);
    assert s4.slots[0].handle == s4.slots[1].handle == 0;
  }

  /** A connection reported lost during a read frees the slot, and the count of the freed slot wraps. */
  lemma LostDuringReadWraps()
    ensures exists s ::
      && Reachable(s, true) && |s.slots| == SLOTS && SaneModem(s.modem) && Enabled(s, TakeRead(0))
      && s.slots[0].pending == 0 && Apply(s, TakeRead(0)).slots[0].pending == 0xFFFF_FFFF
  {
    assert Runs(START, [], START, true);
    var s1 := Opened(START, 0, 0, true);
    var s2 := Informed(s1, 0, 0, [7]);
    ReachStep(s2, Lose(0), true);
    var s3 := Served(Apply(s2, Lose(0)), 0);
    assert s3.modem.channel == [LostUrc(0), ReadReply(0, [7])];
    ReachStep(s3, Urc, true);
    var s4 := Apply(s3, Urc);
    assert s4.modem.channel == [ReadReply(0, [7])] && s4.slots[0] == FREE;
    assert Apply(s4, TakeRead(0)).slots[0].pending == 0xFFFF_FFFF;
  }

  /** Two sockets have a byte each, and a read of the first is served. */
  lemma ServedFirst() returns (s: State)
    ensures Reachable(s, true) && |s.slots| == SLOTS && SaneModem(s.modem) && s.modem.channel == [ReadReply(0, [7])]
    ensures s.slots[0] == Slot(0, 1, None) && s.slots[1] == Slot(1, 1, None)
  {
    assert Runs(START, [], START, true);
    var s1 := Opened(START, 0, 0, true);
    var s2 := Opened(s1, 1, 1, true);
    var s3 := Informed(s2, 0, 0, [7]);
    var s4 := Informed(s3, 1, 1, [7]);
    s := Served(s4, 0);
  }

  /** A reply given up on is taken by the next read, of another socket, and the table is wrong. */
  lemma LateReplyMisread()
    ensures exists s ::
      && Reachable(s, true) && |s.slots| == SLOTS && SaneModem(s.modem) && Enabled(s, TakeRead(1))
      && s.slots[1].handle != s.modem.channel[0].handle && s.slots[1].pending > 0 && !Inv(Apply(s, TakeRead(1)))
  {
    var s := ServedFirst();
    assert s.slots[0].handle == 0 && s.slots[1].handle == 1;
    ReachableInv(s);
    MisreadIsRightIff(s, 1);
  }

  /** A modem that gives the reopened socket another number breaks the table on binding. */
  lemma BindToAnotherNumber()
    ensures exists s ::
      && Reachable(s, true) && |s.slots| == SLOTS && SaneModem(s.modem) && Enabled(s, TakeBind(0, Slot(0, 0, None)))
      && !Inv(Apply(s, TakeBind(0, Slot(0, 0, None))))
  {
    assert Runs(START, [], START, true);
    var s1 := Opened(START, 0, 0, true);
    ReachStep(s1, Close(0), true);
    var s2 := Apply(s1, Close(0));
    ReachStep(s2, TakeClose(0), true);
    var s3 := Apply(s2, TakeClose(0));
    ReachStep(s3, Create(1), true);
    var s4 := Apply(s3, Create(1));
    var s' := Apply(s4, TakeBind(0, Slot(0, 0, None)));
    assert Find(s'.slots, 0) == Some(0) && s'.modem.channel == [] && 0 !in s'.modem.queues;
    assert !Consistent(s', 0);
  }

  /** The modem had closed the handle before anything that is in the channel now. */
  predicate ClosedBefore(m: Modem, h: int)
  {
    Legal([CloseReply(h)] + m.channel, h, h in m.queues)
  }

  /** So it is once the host has the reply that closes it. */
  lemma CloseReplyTaken(m: Modem)
    requires Truthful(m) && m.channel != [] && m.channel[0].CloseReply? && m.channel[0].handle != UNUSED
    ensures ClosedBefore(Popped(m), m.channel[0].handle)
  {
    assert Told(m, m.channel[0].handle) && [m.channel[0]] + m.channel[1..] == m.channel;
  }

  /** A message that neither opens nor closes the handle may be taken off the channel. */
  lemma {:induction false} LegalWithout(h: int, m: Msg, rest: seq<Msg>, open: bool)
    requires Legal([CloseReply(h)] + ([m] + rest), h, open) && (m.handle != h || m.LostUrc?)
    ensures Legal([CloseReply(h)] + rest, h, open)
  {
    var c, d, n := [CloseReply(h)] + ([m] + rest), [CloseReply(h)] + rest, |rest|;
    if n == 0 {
      assert c[..1] == [CloseReply(h)] == d && c[1] == m;
    } else {
      var last, before := rest[n - 1], rest[..n - 1];
      assert c[..n + 1] == [CloseReply(h)] + ([m] + before) && d[..n] == [CloseReply(h)] + before;
      assert c[n + 1] == last == d[n];
      LegalWithout(h, m, before, if last.handle != h || last.LostUrc? then open else !last.CreateReply?);
    }
  }

  /** The close stays before all that is said later, as long as the host runs URC handlers only. */
  lemma ClosedBeforeStays(s: State, t: Step, h: int)
    requires |s.slots| == SLOTS && SaneModem(s.modem) && Enabled(s, t) && (IsModemStep(t) || t.Urc?)
    requires h != UNUSED && ClosedBefore(s.modem, h)
    ensures ClosedBefore(Apply(s, t).modem, h)
  {
    if IsModemStep(t) {
      ModemSpeaksTruth(s, t, [CloseReply(h)], h);
    } else {
      var m, rest := s.modem.channel[0], s.modem.channel[1..];
      var c := [CloseReply(h)] + s.modem.channel;
      assert s.modem.channel == [m] + rest && c[1..] == s.modem.channel;
      SilenceAfterClose(c, h, h in s.modem.queues);
      LegalWithout(h, m, rest, h in s.modem.queues);
    }
  }

  /** The saved slot may go back, with `rest` still on its way: under the number reissued, with nothing
      pending or a count that is corrected later; or under another that is reported lost first. */
  predicate RightToBind(reissued: int, rest: seq<Msg>, saved: Slot)
  {
    if saved.handle == reissued then saved.pending == 0 || Corrected(rest, saved.handle)
    else var f := First(rest, saved.handle); f.Some? && f.value.LostUrc?
  }

  /** The saved handle after binding is consistent exactly when it may go back. */
  lemma {:induction false} BoundHandle(s: State, i: nat, saved: Slot)
    requires Inv(s) && Enabled(s, TakeBind(i, saved)) && saved.handle != UNUSED && Find(s.slots, saved.handle).None?
    requires saved.handle == s.modem.channel[0].handle || ClosedBefore(s.modem, saved.handle)
    ensures Consistent(Rebound(s, i, saved), saved.handle) <==>
      RightToBind(s.modem.channel[0].handle, s.modem.channel[1..], saved)
  {
    var m, rest, h := s.modem.channel[0], s.modem.channel[1..], saved.handle;
    assert Consistent(s, h);
    ReplayHead(Gone, h, s.modem.channel);
    UpdateView(s.slots, i, saved, h);
    if h == m.handle {
      UncountedBytes(saved.pending, saved.pending, h, rest);
    } else {
      var c := [CloseReply(h)] + s.modem.channel;
      assert c[1..] == s.modem.channel && First(s.modem.channel, h) == First(rest, h);
      SilenceAfterClose(c, h, h in s.modem.queues);
      FirstDecides(saved.pending, h, rest);
    }
  }

  /** Binding is right exactly when the saved slot may go back. */
  lemma {:induction false} BindIsRightIff(s: State, i: nat, saved: Slot)
    requires Inv(s) && Enabled(s, TakeBind(i, saved))
    requires saved.handle != UNUSED && saved.pending < CAPACITY && Find(s.slots, saved.handle).None?
    requires saved.handle == s.modem.channel[0].handle || ClosedBefore(s.modem, saved.handle)
    ensures Inv(Rebound(s, i, saved)) <==> RightToBind(s.modem.channel[0].handle, s.modem.channel[1..], saved)
  {
    var m, s' := s.modem.channel[0], Rebound(s, i, saved);
    BoundHandle(s, i, saved);
    StepKeepsTruth(s, TakeBind(i, saved));
    forall k | k != UNUSED && k != saved.handle ensures Consistent(s', k) {
      assert Consistent(s, k);
      ReplayHead(ViewOf(s.slots, k), k, s.modem.channel);
      UpdateView(s.slots, i, saved, k);
      if k == m.handle {
        BrokenStays(k, s'.modem.channel);
        ForgettingIsSafe(OnMsg(ViewOf(s.slots, k), k, m), k, s'.modem.channel);
      }
    }
    UpdateView(s.slots, i, saved, saved.handle);
  }
}
