/** What holds over whole runs of public battery-gauge calls. */
module GaugeRuns {
  import opened Bytes
  import opened GaugeChip
  import opened BatteryGauge

  /** A run of calls that all returned true: `calls[i]` leads from `ws[i]` to `ws[i + 1]`. */
  ghost predicate Run(ws: seq<World>, calls: seq<Call>)
  {
    && |ws| == |calls| + 1
    && (forall i :: 0 <= i < |ws| ==> Shaped(ws[i].chip.mem))
    && (forall i :: 0 <= i < |calls| ==> Succeeds(calls[i], ws[i], ws[i + 1]))
  }

  // ---------------------------------------------------------------- sealing

  /** The chip is sealed exactly when it would seal itself at the next reset. */
  predicate Agree(c: Chip)
    requires Shaped(c.mem)
  {
    c.sealed <==> Reseal(c.mem)
  }

  /** Neither a hard reset nor a second init of a ready driver. */
  predicate SealsOrderly(call: Call, w: World)
  {
    !call.HardReset? && (call.Init? ==> !w.ready)
  }

  lemma AgreementKept(call: Call, w: World, w': World)
    requires Shaped(w.chip.mem) && Succeeds(call, w, w') && SealsOrderly(call, w)
    requires Agree(w.chip) || call.Init?
    ensures Agree(w'.chip)
  {
  }

  /** Seal agreement holds at every call boundary; a first init even establishes it. */
  lemma {:induction false} SealAgreementOverRuns(ws: seq<World>, calls: seq<Call>, i: nat)
    requires Run(ws, calls) && i < |ws|
    requires forall k :: 0 <= k < |calls| ==> SealsOrderly(calls[k], ws[k])
    requires Agree(ws[0].chip) || (i > 0 && calls[0].Init?)
    ensures Agree(ws[i].chip)
  {
    if i > 0 {
      if i > 1 || Agree(ws[0].chip) {
        SealAgreementOverRuns(ws, calls, i - 1);
      }
      AgreementKept(calls[i - 1], ws[i - 1], ws[i]);
    }
  }

  /** The call seals the chip or stores a set reseal bit. */
  predicate AsksToSeal(call: Call)
  {
    || call.Seal?
    || (call.SetConfig? && call.cls == 82 && Fits(call.offset, |call.data|)
        && var start := call.offset % CLASS_SIZE; start <= 2 < start + |call.data| && call.data[2 - start] >= 128)
  }

  /** An unsealed chip stays unsealed until some call seals it or sets the reseal bit. */
  lemma {:induction false} StaysUnsealed(ws: seq<World>, calls: seq<Call>, from: nat, i: nat)
    requires Run(ws, calls) && from <= i < |ws|
    requires forall k :: from <= k < i ==> SealsOrderly(calls[k], ws[k]) && !calls[k].Init? && !AsksToSeal(calls[k])
    requires !ws[from].chip.sealed && !Reseal(ws[from].chip.mem)
    ensures !ws[i].chip.sealed && !Reseal(ws[i].chip.mem)
    decreases i - from
  {
    if i > from {
      StaysUnsealed(ws, calls, from, i - 1);
      var call, w, w' := calls[i - 1], ws[i - 1], ws[i];
      AgreementKept(call, w, w');
      if call.SetConfig? {
        var c, done, slept :|
          && WriteSpec(w.chip, c, w.sealCode, call.cls, call.offset, call.data, done)
          && Hibernated(c, w'.chip, w.gaugeOn, slept) && done && slept;
        FitsInClass(call.offset, |call.data|);
      }
    }
  }

  /** Hence unsealing lasts. */
  lemma UnsealLasts(ws: seq<World>, calls: seq<Call>, u: nat, i: nat)
    requires Run(ws, calls) && u < i < |ws| && calls[u].Unseal?
    requires forall k :: u < k < i ==> SealsOrderly(calls[k], ws[k]) && !calls[k].Init? && !AsksToSeal(calls[k])
    ensures !ws[i].chip.sealed
  {
    assert Succeeds(calls[u], ws[u], ws[u + 1]);
    StaysUnsealed(ws, calls, u + 1, i);
  }

  // ---------------------------------------------------------------- hibernation

  /** With the gauge off, the last hibernate command the chip received is SET_HIBERNATE. */
  predicate Asleep(w: World)
  {
    w.ready && !w.gaugeOn ==> w.chip.hibernate
  }

  lemma AsleepKept(call: Call, w: World, w': World)
    requires Shaped(w.chip.mem) && Succeeds(call, w, w')
    requires Asleep(w) && (call.Init? ==> !w.ready)
    ensures Asleep(w')
  {
  }

  /** From a driver not yet initialised, every run of successful calls keeps an idle chip asleep. */
  lemma {:induction false} AsleepOverRuns(ws: seq<World>, calls: seq<Call>, i: nat)
    requires Run(ws, calls) && i < |ws| && !ws[0].ready
    requires forall k :: 0 <= k < |calls| && calls[k].Init? ==> !ws[k].ready
    ensures Asleep(ws[i])
  {
    if i > 0 {
      AsleepOverRuns(ws, calls, i - 1);
      AsleepKept(calls[i - 1], ws[i - 1], ws[i]);
    }
  }

  // ---------------------------------------------------------------- flat memory

  /** Configuration calls on plain byte arrays: a write that does not fit changes nothing. */
  function Apply(m: Memory, call: Call): (r: Memory)
    requires Shaped(m)
    ensures Shaped(r)
  {
    if call.SetConfig? && Fits(call.offset, |call.data|) then WriteSlice(m, call.cls, call.offset, call.data) else m
  }

  function Flat(m: Memory, calls: seq<Call>): (r: Memory)
    requires Shaped(m)
    ensures Shaped(r)
  {
    if calls == [] then m else Apply(Flat(m, calls[..|calls| - 1]), calls[|calls| - 1])
  }

  predicate IsConfig(call: Call)
  {
    call.GetConfig? || call.SetConfig?
  }

  lemma ConfigStep(call: Call, w: World, w': World)
    requires Shaped(w.chip.mem) && Succeeds(call, w, w') && IsConfig(call) && Agree(w.chip)
    ensures w'.chip.mem == Apply(w.chip.mem, call)
    ensures call.GetConfig? ==>
      Fits(call.offset, |call.data|) && call.data == ReadSlice(w.chip.mem, call.cls, call.offset, |call.data|)
  {
  }

  /** Windows, checksums and the CONFIGUPDATE handshake amount to slices of a flat array. */
  lemma {:induction false} FlatMemoryOverRuns(ws: seq<World>, calls: seq<Call>, i: nat)
    requires Run(ws, calls) && i < |ws| && Agree(ws[0].chip)
    requires forall k :: 0 <= k < |calls| ==> IsConfig(calls[k])
    ensures ws[i].chip.mem == Flat(ws[0].chip.mem, calls[..i])
    ensures i < |calls| && calls[i].GetConfig? ==>
      && Fits(calls[i].offset, |calls[i].data|)
      && calls[i].data == ReadSlice(Flat(ws[0].chip.mem, calls[..i]), calls[i].cls, calls[i].offset, |calls[i].data|)
  {
    if i > 0 {
      FlatMemoryOverRuns(ws, calls, i - 1);
      SealAgreementOverRuns(ws, calls, i - 1);
      assert calls[..i][..i - 1] == calls[..i - 1];
      ConfigStep(calls[i - 1], ws[i - 1], ws[i]);
    }
    if i < |calls| {
      SealAgreementOverRuns(ws, calls, i);
      ConfigStep(calls[i], ws[i], ws[i + 1]);
    }
  }

  /** The call does not touch `n` bytes of sub-class `cls` from `offset` on. */
  predicate Misses(call: Call, cls: byte, offset: nat, n: nat)
  {
    call.SetConfig? && call.cls == cls ==>
      var a, b := call.offset % CLASS_SIZE, offset % CLASS_SIZE;
      a + |call.data| <= b || b + n <= a
  }

  /** A slice outlives the writes that miss it. */
  lemma {:induction false} SliceOutlives(m: Memory, calls: seq<Call>, from: nat, cls: byte, offset: nat, n: nat)
    requires Shaped(m) && Fits(offset, n) && from <= |calls|
    requires forall k :: from <= k < |calls| ==> Misses(calls[k], cls, offset, n)
    ensures ReadSlice(Flat(m, calls), cls, offset, n) == ReadSlice(Flat(m, calls[..from]), cls, offset, n)
    decreases |calls| - from
  {
    if |calls| == from {
      assert calls[..from] == calls;
    } else {
      var last := |calls| - 1;
      SliceOutlives(m, calls[..last], from, cls, offset, n);
      assert calls[..last][..from] == calls[..from];
      FitsInClass(offset, n);
      if calls[last].SetConfig? && Fits(calls[last].offset, |calls[last].data|) {
        FitsInClass(calls[last].offset, |calls[last].data|);
        assert Misses(calls[last], cls, offset, n);
      }
      assert ReadSlice(Flat(m, calls), cls, offset, n) == ReadSlice(Flat(m, calls[..last]), cls, offset, n);
    }
  }

  /** A read returns what the latest overlapping write put there. */
  lemma {:induction false} ReadReturnsLatestWrite(ws: seq<World>, calls: seq<Call>, i: nat, j: nat)
    requires Run(ws, calls) && Agree(ws[0].chip) && i < j < |calls|
    requires forall k :: 0 <= k < |calls| ==> IsConfig(calls[k])
    requires calls[i].SetConfig? && calls[j].GetConfig?
    requires calls[j].cls == calls[i].cls && calls[j].offset == calls[i].offset && |calls[j].data| == |calls[i].data|
    requires forall k :: i < k < j ==> Misses(calls[k], calls[i].cls, calls[i].offset, |calls[i].data|)
    ensures calls[j].data == calls[i].data
  {
    var m := ws[0].chip.mem;
    FlatMemoryOverRuns(ws, calls, j);
    SliceOutlives(m, calls[..j], i + 1, calls[i].cls, calls[i].offset, |calls[i].data|);
    assert calls[..j][..i + 1] == calls[..i + 1];
    assert calls[..i + 1][..i] == calls[..i];
    FitsInClass(calls[i].offset, |calls[i].data|);
  }

  // ---------------------------------------------------------------- faults

  ghost predicate FaultyStep(call: Call, w: World, w': World, ok: bool)
    requires Shaped(w.chip.mem) && IsConfig(call)
  {
    match call
    case GetConfig(cls, offset, data) =>
      GetConfigEffect(w.chip, w'.chip, w.sealCode, w.gaugeOn, cls, offset, |data|, ok, data)
    case SetConfig(cls, offset, data) =>
      SetConfigEffect(w.chip, w'.chip, w.sealCode, w.gaugeOn, cls, offset, data, ok)
  }

  /** A run of configuration calls in which any of them may fail, at any transfer. */
  ghost predicate FaultyRun(ws: seq<World>, calls: seq<Call>, oks: seq<bool>)
  {
    && |ws| == |calls| + 1 && |oks| == |calls|
    && (forall i :: 0 <= i < |ws| ==> Shaped(ws[i].chip.mem))
    && (forall i :: 0 <= i < |calls| ==> IsConfig(calls[i]) && FaultyStep(calls[i], ws[i], ws[i + 1], oks[i]))
  }

  function Chosen(m: Memory, calls: seq<Call>, mask: seq<bool>): (r: Memory)
    requires Shaped(m) && |mask| == |calls|
    ensures Shaped(r)
  {
    if calls == [] then m
    else
      var last := |calls| - 1;
      var before := Chosen(m, calls[..last], mask[..last]);
      if mask[last] then Apply(before, calls[last]) else before
  }

  /** `mask` names the calls whose write took effect; all that returned true are among them. */
  predicate Explains(mask: seq<bool>, calls: seq<Call>, oks: seq<bool>, m: Memory, m': Memory)
    requires Shaped(m) && Shaped(m') && |oks| == |calls|
  {
    && |mask| == |calls|
    && (forall i :: 0 <= i < |oks| && oks[i] ==> mask[i])
    && SetReseal(m') == SetReseal(Chosen(m, calls, mask))
  }

  /** The same memory, reseal bit apart, said byte by byte. */
  lemma {:induction false} SameButReseal(m: Memory, m1: Memory)
    requires Shaped(m) && Shaped(m1)
    ensures SetReseal(m) == SetReseal(m1) <==>
      && (forall c :: 0 <= c < 256 && c != 82 ==> m[c] == m1[c])
      && (forall k :: 0 <= k < CLASS_SIZE && k != 2 ==> m[82][k] == m1[82][k])
      && m[82][2] % 128 == m1[82][2] % 128
  {
    var a, b := SetReseal(m), SetReseal(m1);
    assert forall c :: 0 <= c < 256 && c != 82 ==> a[c] == m[c] && b[c] == m1[c];
    assert forall k :: 0 <= k < CLASS_SIZE && k != 2 ==> a[82][k] == m[82][k] && b[82][k] == m1[82][k];
    assert a[82][2] == 128 + m[82][2] % 128 && b[82][2] == 128 + m1[82][2] % 128;
    assert a == b <==> a[82] == b[82] && forall c :: 0 <= c < 256 && c != 82 ==> a[c] == b[c];
    assert a[82] == b[82] <==> forall k :: 0 <= k < CLASS_SIZE ==> a[82][k] == b[82][k];
  }

  lemma {:induction false} ResealCommutes(m: Memory, m1: Memory, call: Call)
    requires Shaped(m) && Shaped(m1) && SetReseal(m) == SetReseal(m1)
    ensures SetReseal(Apply(m, call)) == SetReseal(Apply(m1, call))
  {
    SameButReseal(m, m1);
    if call.SetConfig? && Fits(call.offset, |call.data|) {
      FitsInClass(call.offset, |call.data|);
    }
    SameButReseal(Apply(m, call), Apply(m1, call));
  }

  lemma {:induction false} FaultyStepEffect(call: Call, w: World, w': World, ok: bool) returns (took: bool)
    requires Shaped(w.chip.mem) && Shaped(w'.chip.mem) && IsConfig(call) && FaultyStep(call, w, w', ok)
    ensures ok ==> took
    ensures SetReseal(w'.chip.mem) == SetReseal(if took then Apply(w.chip.mem, call) else w.chip.mem)
  {
    match call {
      case GetConfig(cls, offset, data) =>
        took := true;
      case SetConfig(cls, offset, data) =>
        var c, done, slept :|
          && WriteSpec(w.chip, c, w.sealCode, cls, offset, data, done)
          && Hibernated(c, w'.chip, w.gaugeOn, slept) && ok == (done && slept);
        took := SetReseal(c.mem) == SetReseal(Apply(w.chip.mem, call));
    }
  }

  lemma ExplainsOneMore(mask: seq<bool>, calls: seq<Call>, oks: seq<bool>, m: Memory, m1: Memory, call: Call,
                        ok: bool, m2: Memory, took: bool)
    requires Shaped(m) && Shaped(m1) && Shaped(m2) && |oks| == |calls| && Explains(mask, calls, oks, m, m1)
    requires ok ==> took
    requires SetReseal(m2) == SetReseal(if took then Apply(m1, call) else m1)
    ensures Explains(mask + [took], calls + [call], oks + [ok], m, m2)
  {
    ResealCommutes(m1, Chosen(m, calls, mask), call);
    assert (calls + [call])[..|calls|] == calls && (mask + [took])[..|calls|] == mask;
  }

  /** Every write happens whole or not at all: whatever fails, at each call boundary the memory,
      apart from the reseal bit, is the one left by some of the writes so far, in order, with none
      that succeeded missing. */
  lemma {:induction false} AllOrNothingOverRuns(ws: seq<World>, calls: seq<Call>, oks: seq<bool>, n: nat)
    returns (mask: seq<bool>)
    requires FaultyRun(ws, calls, oks) && n <= |calls|
    ensures Explains(mask, calls[..n], oks[..n], ws[0].chip.mem, ws[n].chip.mem)
  {
    var m := ws[0].chip.mem;
    if n == 0 {
      mask := [];
    } else {
      var last := n - 1;
      mask := AllOrNothingOverRuns(ws, calls, oks, last);
      var took := FaultyStepEffect(calls[last], ws[last], ws[n], oks[last]);
      ExplainsOneMore(mask, calls[..last], oks[..last], m, ws[last].chip.mem, calls[last], oks[last],
                      ws[n].chip.mem, took);
      mask := mask + [took];
      assert calls[..n] == calls[..last] + [calls[last]] && oks[..n] == oks[..last] + [oks[last]];
    }
  }
}
